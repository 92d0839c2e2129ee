/**
  core/include/mms/ds/prefixmap.h: the tree as the source builds it, one object per node, split
  and extended in place.
 */
module PrefixMap {
  import opened PrefixShape
  import opened PrefixTrie

  class Node<V> {
    var value: V
    var fragment: string
    var children: map<char, Node<V>>

    constructor (value: V, fragment: string, children: map<char, Node<V>>)
      ensures this.value == value && this.fragment == fragment && this.children == children
    {
      this.value, this.fragment, this.children := value, fragment, children;
    }
  }

  /** What one node object holds. */
  datatype Fields<V, O> = Fields(value: V, fragment: string, children: map<char, O>)

  /** An object with these fields stands for path p of the tree t, given who stands for the other paths. */
  ghost predicate Mirror<V, O>(f: Fields<V, O>, nodes: map<string, O>, t: Trie<V>, p: string) {
    && p in t.at && t.at[p].start <= |p|
    && f.value == t.at[p].value && f.fragment == p[t.at[p].start..] && f.children.Keys == t.at[p].kids.Keys
    && forall c :: c in f.children ==> t.at[p].kids[c] in nodes && f.children[c] == nodes[t.at[p].kids[c]]
  }

  /** The objects, one for each path and with these fields, are the tree t. */
  ghost predicate Represents<V, O>(heap: map<O, Fields<V, O>>, nodes: map<string, O>,
                                paths: map<O, string>, t: Trie<V>)
  {
    && heap.Keys == paths.Keys && nodes.Keys == t.at.Keys && t.root in nodes
    && (forall p :: p in nodes ==> nodes[p] in paths && paths[nodes[p]] == p)
    && (forall p {:trigger Mirror(heap[nodes[p]], nodes, t, p)} :: p in nodes ==> Mirror(heap[nodes[p]], nodes, t, p))
  }

  lemma SplitKeepsMirror<V, O>(f: Fields<V, O>, nodes: map<string, O>, t: Trie<V>, q: string,
                            p: string, i: nat, dflt: V, lower: O)
    requires IsTrie(t) && nodes.Keys == t.at.Keys && Mirror(f, nodes, t, q)
    requires p in t.at && t.at[p].start <= i < |p| && q != p && p[..i] !in t.at
    ensures Mirror(f, nodes[p[..i] := nodes[p]][p := lower], Split(t, p, i, dflt), q)
  {
    SplitElsewhere(t, p, i, dflt, q);
  }

  lemma SplitMirrorsParts<V, O>(f: Fields<V, O>, nodes: map<string, O>, t: Trie<V>,
                             p: string, i: nat, dflt: V, lower: O)
    requires IsTrie(t) && nodes.Keys == t.at.Keys && Mirror(f, nodes, t, p)
    requires p in t.at && t.at[p].start <= i < |p| && p[..i] !in t.at
    ensures var k, n, r := i - t.at[p].start, nodes[p[..i] := nodes[p]][p := lower], Split(t, p, i, dflt);
            && Mirror(Fields(f.value, f.fragment[k + 1..], f.children), n, r, p)
            && Mirror(Fields(dflt, f.fragment[..k], map[f.fragment[k] := lower]), n, r, p[..i])
  {
    assert NodeOk(t, p);
    forall c | c in f.children ensures t.at[p].kids[c] != p {
      assert KidOk(t, p, c);
    }
  }

  /** Splitting the object for p in two splits the tree at p. */
  lemma SplitRepresents<V, O>(heap: map<O, Fields<V, O>>, nodes: map<string, O>, paths: map<O, string>,
                           t: Trie<V>, p: string, i: nat, dflt: V, lower: O)
    requires IsTrie(t) && Represents(heap, nodes, paths, t) && lower !in paths
    requires p in t.at && t.at[p].start <= i < |p|
    requires p in nodes && nodes[p] in heap && i - t.at[p].start < |heap[nodes[p]].fragment|
    ensures p[..i] !in nodes && Split(t, p, i, dflt).root == if p == t.root then p[..i] else t.root
    ensures var k, f, n, r := i - t.at[p].start, heap[nodes[p]], nodes[p[..i] := nodes[p]][p := lower], Split(t, p, i, dflt);
            IsTrie(r) &&
            Represents(heap[nodes[p] := Fields(dflt, f.fragment[..k], map[f.fragment[k] := lower])]
                           [lower := Fields(f.value, f.fragment[k + 1..], f.children)],
                       n, paths[nodes[p] := p[..i]][lower := p], r)
  {
    hide IsTrie, Split, Mirror;
    SplitKeepsTrie(t, p, i, dflt);
    assert Mirror(heap[nodes[p]], nodes, t, p);
    SplitMirrorsParts(heap[nodes[p]], nodes, t, p, i, dflt, lower);
    forall q | q in nodes && q != p
      ensures Mirror(heap[nodes[q]], nodes[p[..i] := nodes[p]][p := lower], Split(t, p, i, dflt), q)
    {
      assert Mirror(heap[nodes[q]], nodes, t, q);
      SplitKeepsMirror(heap[nodes[q]], nodes, t, q, p, i, dflt, lower);
    }
  }

  /** Hanging a fresh object below the one for p adds a leaf below p. */
  lemma LeafRepresents<V, O>(heap: map<O, Fields<V, O>>, nodes: map<string, O>, paths: map<O, string>,
                             t: Trie<V>, p: string, key: string, dflt: V, leaf: O)
    requires IsTrie(t) && Represents(heap, nodes, paths, t) && leaf !in paths
    requires p in t.at && p < key && key[|p|] !in t.at[p].kids && p in nodes && nodes[p] in heap
    ensures key !in nodes && IsTrie(Leaf(t, p, key, dflt))
    ensures var f := heap[nodes[p]];
            Represents(heap[nodes[p] := f.(children := f.children[key[|p|] := leaf])]
                           [leaf := Fields(dflt, key[|p| + 1..], map[])],
                       nodes[key := leaf], paths[leaf := key], Leaf(t, p, key, dflt))
  {
    hide IsTrie, Leaf, Mirror;
    LeafKeepsTrie(t, p, key, dflt);
    assert Mirror(heap[nodes[p]], nodes, t, p);
    LeafMirrors(heap[nodes[p]], nodes, t, p, key, dflt, leaf);
    forall q | q in nodes && q != p ensures Mirror(heap[nodes[q]], nodes[key := leaf], Leaf(t, p, key, dflt), q) {
      assert Mirror(heap[nodes[q]], nodes, t, q);
      LeafKeepsMirror(heap[nodes[q]], nodes, t, q, p, key, dflt, leaf);
    }
  }

  lemma LeafKeepsMirror<V, O>(f: Fields<V, O>, nodes: map<string, O>, t: Trie<V>, q: string,
                              p: string, key: string, dflt: V, leaf: O)
    requires nodes.Keys == t.at.Keys && Mirror(f, nodes, t, q)
    requires p in t.at && p < key && q != p && key !in t.at
    ensures Mirror(f, nodes[key := leaf], Leaf(t, p, key, dflt), q)
  {
  }

  lemma LeafMirrors<V, O>(f: Fields<V, O>, nodes: map<string, O>, t: Trie<V>,
                          p: string, key: string, dflt: V, leaf: O)
    requires nodes.Keys == t.at.Keys && Mirror(f, nodes, t, p)
    requires p in t.at && p < key && key[|p|] !in t.at[p].kids && key !in t.at
    ensures Mirror(f.(children := f.children[key[|p|] := leaf]), nodes[key := leaf], Leaf(t, p, key, dflt), p)
    ensures Mirror(Fields(dflt, key[|p| + 1..], map[]), nodes[key := leaf], Leaf(t, p, key, dflt), key)
  {
  }

  lemma SetValueRepresents<V, O>(heap: map<O, Fields<V, O>>, nodes: map<string, O>, paths: map<O, string>,
                                 t: Trie<V>, p: string, value: V)
    requires IsTrie(t) && Represents(heap, nodes, paths, t) && p in t.at && p in nodes && nodes[p] in heap
    ensures IsTrie(SetValue(t, p, value))
    ensures Represents(heap[nodes[p] := heap[nodes[p]].(value := value)], nodes, paths, SetValue(t, p, value))
  {
    SetValueKeepsTrie(t, p, value);
    hide IsTrie;
    forall q | q in nodes ensures Mirror(heap[nodes[q]], nodes, t, q) {
    }
  }

  lemma RootRepresents<V, O>(key: string, value: V, root: O)
    ensures IsTrie(Trie(key, map[key := Entry(value, 0, map[])]))
    ensures Represents(map[root := Fields(value, key, map[])], map[key := root], map[root := key],
                       Trie(key, map[key := Entry(value, 0, map[])]))
  {
  }

  class PrefixMap<V(==)> {
    const emptyvalue: V
    const root: Node<V>
    ghost var trie: Trie<V>                 // the tree as a value
    ghost var nodes: map<string, Node<V>>   // the object for each of its paths
    ghost var paths: map<Node<V>, string>   // and back

    ghost function Heap(): map<Node<V>, Fields<V, Node<V>>>
      reads this, paths.Keys
    {
      map n | n in paths :: Fields(n.value, n.fragment, n.children)
    }

    ghost predicate Valid()
      reads this, paths.Keys
    {
      && IsTrie(trie) && Represents(Heap(), nodes, paths, trie)
      && trie.root in nodes && nodes[trie.root] == root
    }

    /** current is the object that stands for path p. */
    ghost predicate At(current: Node<V>, p: string)
      reads this, paths.Keys
    {
      Valid() && p in nodes && nodes[p] == current && current in paths && p in trie.at
    }

    /** The objects of heap hold what it says. */
    static ghost predicate Matches(heap: map<Node<V>, Fields<V, Node<V>>>)
      reads heap.Keys
    {
      forall n :: n in heap ==> heap[n] == Fields(n.value, n.fragment, n.children)
    }

    lemma IsValid(current: Node<V>, p: string)
      requires At(current, p)
      ensures Matches(Heap()) && IsTrie(trie) && Represents(Heap(), nodes, paths, trie) && Heap().Keys == paths.Keys
      ensures trie.root in nodes && nodes[trie.root] == root && p in nodes && nodes[p] == current && p in trie.at
      ensures trie.at[p].start <= |p| && current.fragment == p[trie.at[p].start..]
      ensures Heap()[current] == Fields(current.value, current.fragment, current.children)
    {
      assert Mirror(Heap()[current], nodes, trie, p);
    }

    /** What holds right after the fields have been changed. */
    lemma StaysValid(heap: map<Node<V>, Fields<V, Node<V>>>, current: Node<V>, p: string)
      requires Matches(heap) && IsTrie(trie) && Represents(heap, nodes, paths, trie)
      requires trie.root in nodes && nodes[trie.root] == root && p in nodes && nodes[p] == current
      ensures At(current, p)
    {
      assert heap.Keys == paths.Keys;
      assert Heap() == heap;
    }

    static lemma OneMoreMatches(heap: map<Node<V>, Fields<V, Node<V>>>, n: Node<V>)
      requires Matches(heap)
      ensures Matches(heap[n := Fields(n.value, n.fragment, n.children)])
    {
    }

    static method ChangeValue(n: Node<V>, value: V, ghost heap: map<Node<V>, Fields<V, Node<V>>>)
      requires Matches(heap)
      modifies n
      ensures Matches(heap[n := Fields(value, old(n.fragment), old(n.children))])
    {
      n.value := value;
    }

    static method ChangeChildren(n: Node<V>, children: map<char, Node<V>>, ghost heap: map<Node<V>, Fields<V, Node<V>>>)
      requires Matches(heap)
      modifies n
      ensures n.children == children && Matches(heap[n := Fields(old(n.value), old(n.fragment), children)])
    {
      n.children := children;
    }

    /** An object gets other fields. */
    static method Change(n: Node<V>, value: V, fragment: string, children: map<char, Node<V>>,
                         ghost heap: map<Node<V>, Fields<V, Node<V>>>)
      requires Matches(heap)
      modifies n
      ensures n.children == children && Matches(heap[n := Fields(value, fragment, children)])
    {
      n.value := value;
      n.fragment := fragment;
      n.children := children;
    }

    constructor (emptyvalue: V)
      ensures Valid() && Values(trie) == map["" := emptyvalue] && this.emptyvalue == emptyvalue
      ensures fresh(paths.Keys)
    {
      this.emptyvalue := emptyvalue;
      var r := new Node(emptyvalue, "", map[]);
      root := r;
      paths := map[r := ""];
      nodes := map["" := r];
      trie := Trie("", map["" := Entry(emptyvalue, 0, map[])]);
    }

    /** breakmatch: the fragment of current is cut at breakindex, a new node takes its lower part. */
    method BreakMatch(current: Node<V>, breakindex: nat, ghost p: string, ghost cut: nat)
      requires At(current, p) && breakindex < |current.fragment|
      requires trie.at[p].start <= cut < |p| && breakindex == cut - trie.at[p].start
      modifies this, current
      ensures At(current, p[..cut]) && trie == Split(old(trie), p, cut, emptyvalue)
      ensures current.children.Keys == {old(current.fragment)[breakindex]}
      ensures fresh(paths.Keys - old(paths.Keys)) && old(paths.Keys) <= paths.Keys
    {
      hide *;
      var postmatch := current.fragment[breakindex + 1..];
      var newentry := new Node(current.value, postmatch, current.children);
      CutFragment(current, breakindex, newentry, p, cut);
    }

    /** The new node below has taken over value and children; the old one becomes the upper part. */
    method CutFragment(current: Node<V>, breakindex: nat, newentry: Node<V>, ghost p: string, ghost cut: nat)
      requires At(current, p) && breakindex < |current.fragment|
      requires trie.at[p].start <= cut < |p| && breakindex == cut - trie.at[p].start
      requires newentry !in paths && newentry.value == current.value && newentry.children == current.children
      requires newentry.fragment == current.fragment[breakindex + 1..]
      modifies this, current
      ensures At(current, p[..cut]) && trie == Split(old(trie), p, cut, emptyvalue)
      ensures current.children.Keys == {old(current.fragment)[breakindex]}
      ensures paths.Keys == old(paths.Keys) + {newentry}
    {
      hide *;
      IsValid(current, p);
      var ch := current.fragment[breakindex];
      var prematch := current.fragment[..breakindex];
      ghost var heap: map<Node<V>, Fields<V, Node<V>>> := Heap();
      ghost var fields := Fields(emptyvalue, prematch, map[ch := newentry]);
      SplitRepresents(heap, nodes, paths, trie, p, cut, emptyvalue, newentry);
      Change(current, emptyvalue, prematch, map[ch := newentry], heap);
      OneMoreMatches(heap[current := fields], newentry);
      heap := heap[current := fields][newentry := Fields(newentry.value, newentry.fragment, newentry.children)];
      ghost var above: map<string, Node<V>> := nodes[p[..cut] := current];
      paths := paths[current := p[..cut]][newentry := p];
      nodes := above[p := newentry];
      trie := Split(trie, p, cut, emptyvalue);
      StaysValid(heap, current, p[..cut]);
    }

    /** A node for the rest of the key is hung below current. */
    method AddLeaf(current: Node<V>, ch: char, rest: string, ghost p: string, ghost key: string) returns (newentry: Node<V>)
      requires At(current, p) && p < key && ch == key[|p|] && rest == key[|p| + 1..] && ch !in trie.at[p].kids
      modifies this, current
      ensures At(newentry, key) && trie == Leaf(old(trie), p, key, emptyvalue)
      ensures fresh(paths.Keys - old(paths.Keys)) && old(paths.Keys) <= paths.Keys
    {
      hide *;
      newentry := new Node(emptyvalue, rest, map[]);
      HangLeaf(current, ch, newentry, p, key);
    }

    method HangLeaf(current: Node<V>, ch: char, newentry: Node<V>, ghost p: string, ghost key: string)
      requires At(current, p) && p < key && ch == key[|p|] && ch !in trie.at[p].kids
      requires newentry !in paths && newentry.value == emptyvalue && newentry.fragment == key[|p| + 1..] && newentry.children == map[]
      modifies this, current
      ensures At(newentry, key) && trie == Leaf(old(trie), p, key, emptyvalue)
      ensures paths.Keys == old(paths.Keys) + {newentry}
    {
      hide *;
      IsValid(current, p);
      ghost var heap: map<Node<V>, Fields<V, Node<V>>> := Heap();
      var children: map<char, Node<V>> := current.children[ch := newentry];
      ghost var fields := Fields(current.value, current.fragment, children);
      LeafRepresents(heap, nodes, paths, trie, p, key, emptyvalue, newentry);
      LeafRoot(trie, p, key, emptyvalue);
      ChangeChildren(current, children, heap);
      OneMoreMatches(heap[current := fields], newentry);
      heap := heap[current := fields][newentry := Fields(newentry.value, newentry.fragment, newentry.children)];
      paths := paths[newentry := key];
      nodes := nodes[key := newentry];
      trie := Leaf(trie, p, key, emptyvalue);
      StaysValid(heap, newentry, key);
    }

    lemma SetValueRoot(t: Trie<V>, p: string, value: V)
      requires p in t.at
      ensures SetValue(t, p, value).root == t.root && p in SetValue(t, p, value).at
    {
    }

    lemma LeafRoot(t: Trie<V>, p: string, key: string, dflt: V)
      requires p in t.at && |p| < |key|
      ensures Leaf(t, p, key, dflt).root == t.root
    {
    }

    /** The value is stored at the node the walk ended on. */
    method Store(current: Node<V>, value: V, ghost p: string)
      requires At(current, p)
      modifies this, current
      ensures At(current, p) && trie == SetValue(old(trie), p, value)
      ensures nodes == old(nodes) && paths == old(paths)
    {
      hide *;
      IsValid(current, p);
      ghost var heap: map<Node<V>, Fields<V, Node<V>>> := Heap();
      ghost var fields := Fields(value, current.fragment, current.children);
      SetValueRepresents(heap, nodes, paths, trie, p, value);
      SetValueRoot(trie, p, value);
      ChangeValue(current, value, heap);
      heap := heap[current := fields];
      trie := SetValue(trie, p, value);
      StaysValid(heap, current, p);
    }

    /** The first insert: the unused root takes the whole key. */
    method UseRoot(key: string)
      requires At(root, "") && trie.at.Keys == {""}
      modifies this, root
      ensures At(root, key) && trie == Trie(key, map[key := Entry(old(trie).at[""].value, 0, map[])])
      ensures paths.Keys <= old(paths.Keys)
    {
      hide IsTrie, Represents;
      NodeFields(root, "");
      RootRepresents(key, trie.at[""].value, root);
      root.fragment := key;
      root.children := map[];
      nodes := map[key := root];
      paths := map[root := key];
      trie := Trie(key, map[key := Entry(root.value, 0, map[])]);
      StaysValid(map[root := Fields(root.value, key, map[])], root, key);
    }

    /** The inner loop of insert: how far current's fragment and the key run together. */
    method ScanFragment(fragment: string, key: string, start: nat) returns (matchindex: nat, index: nat)
      requires start <= |key|
      ensures index == start + matchindex && Scanned(fragment, key, start, matchindex) && ScanStops(fragment, key, start, matchindex)
      ensures index <= |key| && (matchindex < |fragment| && index < |key| ==> key[index] != fragment[matchindex])
    {
      matchindex, index := 0, start;
      while matchindex <= |fragment| && index < |key|
            && (if matchindex < |fragment| then fragment[matchindex] else NUL) == key[index]
        invariant index == start + matchindex && Scanned(fragment, key, start, matchindex)
      {
        matchindex, index := matchindex + 1, index + 1;
      }
    }

    /** What the object for p holds. */
    lemma NodeFields(current: Node<V>, p: string)
      requires At(current, p)
      ensures IsTrie(trie) && p in trie.at && trie.at[p].start <= |p| && current.value == trie.at[p].value && current.fragment == p[trie.at[p].start..]
      ensures current.children.Keys == trie.at[p].kids.Keys
      ensures forall c :: c in current.children ==> At(current.children[c], trie.at[p].kids[c])
    {
      assert Mirror(Heap()[current], nodes, trie, p);
      hide IsTrie;
    }

    /** One round of insert's loop: scan current's fragment, then descend, or split, stop and hang a leaf. */
    method InsertStep(current: Node<V>, key: string, start: nat, ghost p: string, ghost value: V)
      returns (done: bool, next: Node<V>, index: nat, ghost q: string)
      requires At(current, p) && Walking(trie, p, key, start) && start <= |key| && trie.at.Keys != {""}
      modifies this, current
      ensures At(next, q) && index <= |key|
      ensures done ==> Values(SetValue(trie, q, value)) == PrefixShape.Insert(Values(old(trie)), key, value, emptyvalue)
      ensures done ==> fresh(paths.Keys - old(paths.Keys))
      ensures !done ==> trie == old(trie) && paths == old(paths) && unchanged(current)
      ensures !done ==> start < index && Walking(trie, q, key, index)
    {
      hide *;
      NodeFields(current, p);
      var matchindex;
      matchindex, index := ScanFragment(current.fragment, key, start);
      done := matchindex < |current.fragment| || index == |key| || key[index] !in current.children;
      if done {
        WalkEnds(trie, p, key, start, matchindex, value, emptyvalue);
        EndedIs(trie, p, key, start, matchindex, value, emptyvalue);
        next, q := EndWalk(current, key, start, matchindex, p);
      } else {
        WalkDescends(trie, p, key, start, matchindex);
        next, q := current.children[key[index]], trie.at[p].kids[key[index]];
        index := index + 1;
      }
    }

    lemma EndedIs(t: Trie<V>, p: string, key: string, index: nat, n: nat, value: V, dflt: V)
      requires p in t.at && t.at[p].start <= |p| && index + n <= |key|
      ensures Ended(t, p, key, index, n, value, dflt) == SetValue(Grown(t, p, key, index, n, dflt), Where(t, p, key, index, n), value)
    {
    }

    /** What the loop does where it ends. */
    method EndWalk(current: Node<V>, key: string, start: nat, matchindex: nat, ghost p: string)
      returns (next: Node<V>, ghost q: string)
      requires At(current, p) && trie.at[p].start <= |p| && start + matchindex <= |key|
      requires var index := start + matchindex;
               if matchindex < |current.fragment| then index < |key| ==> key[index] != current.fragment[matchindex]
               else index == |key| || key[index] !in current.children
      modifies this, current
      ensures At(next, q) && q == Where(old(trie), p, key, start, matchindex)
      ensures trie == Grown(old(trie), p, key, start, matchindex, emptyvalue)
      ensures fresh(paths.Keys - old(paths.Keys))
    {
      hide At, Valid, Represents, IsTrie, Split, Leaf;
      NodeFields(current, p);
      var index := start + matchindex;
      next, q := current, p;
      if matchindex < |current.fragment| {
        q := p[..trie.at[p].start + matchindex];
        BreakMatch(current, matchindex, p, trie.at[p].start + matchindex);
        NodeFields(current, q);
      }
      if index < |key| {
        Behind(q, key, index);
        next := AddLeaf(current, key[index], key[index + 1..], q, q + key[index..]);
        q := q + key[index..];
      }
    }

    lemma Behind(q: string, key: string, index: nat)
      requires index < |key|
      ensures var whole := q + key[index..]; q < whole && whole[|q|] == key[index] && whole[|q| + 1..] == key[index + 1..]
    {
    }

    lemma StartOfInsert(key: string)
      requires Valid()
      ensures At(root, trie.root) && Walking(trie, trie.root, key, 0)
      ensures root.fragment == "" && root.children == map[] <==> trie.at.Keys == {""}
      ensures trie.at.Keys == {""} ==> trie.root == ""
    {
      UnusedTree(trie);
      NodeFields(root, trie.root);
      WalkStarts(trie, key);
    }

    /** The outer loop of insert: down the tree, to the node that gets the value. */
    method InsertWalk(key: string, ghost value: V) returns (current: Node<V>, ghost p: string)
      requires Valid() && trie.at.Keys != {""}
      modifies this, paths.Keys
      ensures At(current, p)
      ensures Values(SetValue(trie, p, value)) == PrefixShape.Insert(Values(old(trie)), key, value, emptyvalue)
      ensures fresh(paths.Keys - old(paths.Keys))
    {
      hide *;
      StartOfInsert(key);
      InPaths(root, trie.root);
      current, p := root, trie.root;
      var index, done := 0, false;
      while !done
        invariant At(current, p) && current in paths && p in trie.at && index <= |key|
        invariant !done ==> trie == old(trie) && paths == old(paths) && Walking(trie, p, key, index)
        invariant done ==> Values(SetValue(trie, p, value)) == PrefixShape.Insert(Values(old(trie)), key, value, emptyvalue)
        invariant fresh(paths.Keys - old(paths.Keys))
        decreases !done, |key| - index
      {
        done, current, index, p := InsertStep(current, key, index, p, value);
        InPaths(current, p);
      }
    }

    lemma InPaths(current: Node<V>, p: string)
      requires At(current, p)
      ensures current in paths && p in trie.at && Valid()
    {
    }

    method Insert(key: string, value: V)
      requires Valid()
      modifies this, paths.Keys
      ensures Valid() && Values(trie) == PrefixShape.Insert(Values(old(trie)), key, value, emptyvalue)
      ensures fresh(paths.Keys - old(paths.Keys))
    {
      hide *;
      StartOfInsert(key);
      InPaths(root, trie.root);
      var current := root;
      ghost var p := key;
      if root.fragment != "" || root.children != map[] {
        current, p := InsertWalk(key, value);
      } else {
        InsertFirst(trie, key, value, emptyvalue);
        UseRoot(key);
      }
      InPaths(current, p);
      Store(current, value, p);
      InPaths(current, p);
    }

    /** The inner loop of search. */
    method MatchFragment(fragment: string, key: string, start: nat) returns (matchindex: nat, index: nat)
      requires start <= |key|
      ensures index == start + matchindex && Matched(fragment, key, start, matchindex)
      ensures matchindex <= |fragment| && index <= |key|
    {
      matchindex, index := 0, start;
      while matchindex < |fragment| && index < |key| && fragment[matchindex] == key[index]
        invariant index == start + matchindex && matchindex <= |fragment| && index <= |key|
        invariant fragment[..matchindex] == key[start..index]
      {
        assert fragment[..matchindex + 1] == fragment[..matchindex] + [fragment[matchindex]];
        matchindex, index := matchindex + 1, index + 1;
      }
    }

    lemma StartOfSearch(key: string)
      requires Valid()
      ensures At(root, trie.root) && trie.root in trie.at && trie.at[trie.root].start == 0
      ensures IsTrie(trie) && Searching(trie, trie.root, key, 0)
    {
      SearchStarts(trie, key);
    }

    /** newkey is passed in and out: the source leaves it alone on some paths. */
    method Search(key: string, newkey: string) returns (value: V, newkey': string)
      requires Valid()
      ensures SearchAnswer(Values(trie), emptyvalue, key, newkey, Found(value, newkey'))
    {
      hide *;
      StartOfSearch(key);
      var index := 0;
      var current := root;
      ghost var p := trie.root;
      var prev: Node?<V> := null;
      var previndex := 0;
      while true
        invariant At(current, p) && p in trie.at && Searching(trie, p, key, index) && index <= |key|
        invariant prev == null <==> index == 0
        invariant trie.at[p].start == index <= |p|
        invariant prev != null ==> previndex + 1 == index && Up(trie, p) in trie.at && prev.value == trie.at[Up(trie, p)].value
        decreases |key| - index
      {
        NodeFields(current, p);
        ghost var start := index;
        var matchindex;
        matchindex, index := MatchFragment(current.fragment, key, index);
        SearchEnds(trie, p, key, start, matchindex, newkey, emptyvalue);
        if matchindex < |current.fragment| {
          if prev != null {
            return prev.value, key[previndex..];
          }
          break;
        }
        if index == |key| {
          return current.value, newkey;
        }
        if key[index] !in current.children {
          return current.value, key[index..];
        }
        SearchDescends(trie, p, key, start, matchindex);
        prev := current;
        previndex := index;
        p := trie.at[p].kids[key[index]];
        current := current.children[key[index]];
        index := index + 1;
      }
      return emptyvalue, newkey;
    }
  }
}
