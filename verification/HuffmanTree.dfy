/**
  created_huffman_tree and get_huffman_string of library/http/lib/hpack.cpp: the decoding tree as
  linked nodes, built row by row, and the walk over it.
 */
module HuffmanTree {
  import opened Options
  import opened Bits
  import opened HuffmanCode

  class Node {
    var symbol: int
    var left: Node?
    var right: Node?

    constructor ()
      ensures symbol == -1 && left == null && right == null
    {
      symbol, left, right := -1, null, null;
    }
  }

  /** What one node object holds. */
  datatype Fields<O> = Fields(symbol: int, left: Option<O>, right: Option<O>)

  function Child<O>(nodes: map<BitString, O>, p: BitString): Option<O> {
    if p in nodes then Some(nodes[p]) else None
  }

  ghost predicate Mirror<O>(f: Fields<O>, nodes: map<BitString, O>, tree: Tree, p: BitString)
    requires p in tree
  {
    f == Fields(tree[p], Child(nodes, p + [false]), Child(nodes, p + [true]))
  }

  /** The objects, one for each path and with these fields, are the tree. */
  ghost predicate Represents<O>(heap: map<O, Fields<O>>, nodes: map<BitString, O>, paths: map<O, BitString>, tree: Tree) {
    && heap.Keys == paths.Keys && nodes.Keys == tree.Keys && [] in nodes
    && (forall p :: p in nodes ==> nodes[p] in paths && paths[nodes[p]] == p)
    && (forall o :: o in paths ==> paths[o] in nodes && nodes[paths[o]] == o)
    && (forall p {:trigger Mirror(heap[nodes[p]], nodes, tree, p)} :: p in nodes ==> Mirror(heap[nodes[p]], nodes, tree, p))
  }

  function WithChild<O>(f: Fields<O>, x: bool, o: O): Fields<O> {
    if x then f.(right := Some(o)) else f.(left := Some(o))
  }

  /** A fresh object hung below the one for p adds the path p + [x]. */
  lemma GrowRepresents<O>(heap: map<O, Fields<O>>, nodes: map<BitString, O>, paths: map<O, BitString>, tree: Tree,
                          p: BitString, x: bool, fresh': O)
    requires Represents(heap, nodes, paths, tree) && p in nodes && p + [x] !in nodes && fresh' !in paths
    requires p + [x] + [false] !in nodes && p + [x] + [true] !in nodes && nodes[p] in heap
    ensures Represents(heap[nodes[p] := WithChild(heap[nodes[p]], x, fresh')][fresh' := Fields(-1, None, None)],
                       nodes[p + [x] := fresh'], paths[fresh' := p + [x]], tree[p + [x] := -1])
  {
    var h := heap[nodes[p] := WithChild(heap[nodes[p]], x, fresh')][fresh' := Fields(-1, None, None)];
    var n, t := nodes[p + [x] := fresh'], tree[p + [x] := -1];
    forall q | q in n ensures Mirror(h[n[q]], n, t, q) {
      SameParent(q, p, false, x);
      SameParent(q, p, true, x);
      if q == p + [x] {
        assert |p + [x]| != |q + [false]| && |p + [x]| != |q + [true]|;
      } else {
        assert Mirror(heap[nodes[q]], nodes, tree, q);
      }
    }
  }

  lemma SameParent(q: BitString, p: BitString, y: bool, x: bool)
    ensures q + [y] == p + [x] <==> q == p && y == x
  {
    assert q == (q + [y])[..|q|] && p == (p + [x])[..|p|];
    assert (q + [y])[|q|] == y && (p + [x])[|p|] == x;
  }

  lemma MarkRepresents<O>(heap: map<O, Fields<O>>, nodes: map<BitString, O>, paths: map<O, BitString>, tree: Tree,
                          p: BitString, symbol: int)
    requires Represents(heap, nodes, paths, tree) && p in nodes && nodes[p] in heap
    ensures Represents(heap[nodes[p] := heap[nodes[p]].(symbol := symbol)], nodes, paths, tree[p := symbol])
  {
    forall q | q in nodes ensures Mirror(heap[nodes[q]], nodes, tree, q) {
    }
  }

  // The tree while it is built: the ways of the first n rows and of one code's beginning.

  ghost predicate OnWayBelow(table: seq<Code>, p: BitString, n: nat)
    requires n <= |table|
  {
    exists i {:trigger CodeBits(table, i)} :: 0 <= i < n && p <= CodeBits(table, i)
  }

  ghost predicate InPart(table: seq<Code>, p: BitString, n: nat, begun: BitString)
    requires n <= |table|
  {
    p <= begun || OnWayBelow(table, p, n)
  }

  ghost predicate PartTree(tree: Tree, table: seq<Code>, n: nat, begun: BitString)
    requires n <= |table|
  {
    && (forall p {:trigger InPart(table, p, n, begun)} :: p in tree <==> InPart(table, p, n, begun))
    && (forall p :: p in tree ==> tree[p] == LastRowBelow(table, p, n))
  }

  lemma Shortened(a: BitString, x: bool, b: BitString)
    requires a + [x] <= b
    ensures a <= b && |a| < |b| && b[|a|] == x
  {
    assert b[|a|] == (a + [x])[|a|];
  }

  /** What lies on the way of an earlier row lies there with all its beginnings. */
  lemma PartTreeClosed(tree: Tree, table: seq<Code>, n: nat, begun: BitString, p: BitString, x: bool)
    requires n <= |table| && PartTree(tree, table, n, begun) && p + [x] in tree
    ensures p in tree
  {
    assert InPart(table, p + [x], n, begun);
    assert InPart(table, p, n, begun) by {
      if p + [x] <= begun {
        Shortened(p, x, begun);
      } else {
        var i :| 0 <= i < n && p + [x] <= CodeBits(table, i);
        Shortened(p, x, CodeBits(table, i));
      }
    }
  }

  lemma PartTreeStep(tree: Tree, table: seq<Code>, n: nat, b: BitString, k: nat)
    requires n < |table| && k < |b| && PartTree(tree, table, n, b[..k])
    ensures b[..k] in tree
    ensures var p := b[..k + 1];
            p !in tree ==> p + [false] !in tree && p + [true] !in tree
    ensures PartTree(if b[..k + 1] in tree then tree else tree[b[..k + 1] := -1], table, n, b[..k + 1])
  {
    var p := b[..k + 1];
    assert InPart(table, b[..k], n, b[..k]);
    var t := if p in tree then tree else tree[p := -1];
    forall q ensures q in t <==> InPart(table, q, n, p) {
      assert q in tree <==> InPart(table, q, n, b[..k]);
      OneMore(q, b, k);
    }
    assert p in tree <==> InPart(table, p, n, b[..k]);
    forall x: bool ensures p + [x] in tree ==> p in tree {
      if p + [x] in tree { PartTreeClosed(tree, table, n, b[..k], p, x); }
    }
  }

  lemma EmptyPartTree(table: seq<Code>)
    ensures PartTree(map[[] := -1], table, 0, [])
  {
  }

  lemma OneMore(q: BitString, b: BitString, k: nat)
    requires k < |b|
    ensures q <= b[..k + 1] <==> q <= b[..k] || q == b[..k + 1]
  {
    assert b[..k + 1][..k] == b[..k];
    assert q <= b[..k + 1] && |q| <= k ==> q == b[..k + 1][..|q|] == b[..k][..|q|];
  }

  lemma OnWayBelowStep(table: seq<Code>, p: BitString, n: nat)
    requires n < |table|
    ensures OnWayBelow(table, p, n + 1) <==> OnWayBelow(table, p, n) || p <= CodeBits(table, n)
  {
    if OnWayBelow(table, p, n + 1) {
      var i :| 0 <= i < n + 1 && p <= CodeBits(table, i);
    }
  }

  lemma PartTreeMark(tree: Tree, table: seq<Code>, n: nat)
    requires n < |table| && PartTree(tree, table, n, CodeBits(table, n))
    ensures CodeBits(table, n) in tree && PartTree(tree[CodeBits(table, n) := n], table, n + 1, [])
  {
    var b := CodeBits(table, n);
    assert InPart(table, b, n, b);
    var t := tree[b := n];
    forall p ensures p in t <==> InPart(table, p, n + 1, []) {
      assert p in tree <==> InPart(table, p, n, b);
      OnWayBelowStep(table, p, n);
    }
  }

  lemma PartTreeDone(tree: Tree, table: seq<Code>)
    requires PartTree(tree, table, |table|, [])
    ensures IsTreeOf(tree, table)
  {
    forall p ensures p in tree <==> p == [] || OnWay(table, p) {
      assert p in tree <==> InPart(table, p, |table|, []);
      assert OnWayBelow(table, p, |table|) <==> OnWay(table, p);
    }
  }

  /** x & bit for a bit that is a power of two. */
  predicate BitSet(x: nat, bit: nat)
    requires bit >= 1
  {
    x / bit % 2 == 1
  }

  lemma HalfPow(n: nat)
    ensures Pow2(n) / 2 == if n > 0 then Pow2(n - 1) else 0
  {
  }

  lemma BitOfCode(table: seq<Code>, row: nat, k: nat)
    requires row < |table| && k < table[row].len
    ensures BitSet(table[row].code, Pow2(table[row].len - 1 - k)) == CodeBits(table, row)[k]
  {
    BitAt(table[row].code, table[row].len, k);
  }

  lemma BitOfStream(stream: seq<Byte>, i: nat, j: nat)
    requires i < |stream| && j < 8
    ensures |BitsOfBytes(stream)| == 8 * |stream|
    ensures BitSet(stream[i], Pow2(7 - j)) == BitsOfBytes(stream)[8 * i + j]
  {
    ByteBit(stream, i, j);
    BitAt(stream[i], 8, j);
  }

  lemma LeafMeans(tree: Tree, p: BitString)
    ensures IsLeaf(tree, p) <==> p + [false] !in tree && p + [true] !in tree
  {
  }

  /** One step of the walk: off the tree, on to an inner node, the end of the string, or one more byte. */
  lemma DecodeStep(tree: Tree, value: seq<Byte>, p: BitString, all: BitString, k: nat)
    requires k < |all|
    ensures var q, whole := p + [all[k]], PrependAll(value, Decode(tree, p, all[k..]));
            && (q !in tree ==> whole == None)
            && (q in tree && !IsLeaf(tree, q) ==> whole == PrependAll(value, Decode(tree, q, all[k + 1..])))
            && (q in tree && IsLeaf(tree, q) && tree[q] == EOS ==> whole == Some(value))
            && (q in tree && IsLeaf(tree, q) && tree[q] != EOS ==>
                  whole == PrependAll(value + [tree[q] % 256], Decode(tree, [], all[k + 1..])))
  {
    assert all[k..][1..] == all[k + 1..] && value + [] == value;
    var q := p + [all[k]];
    if q in tree {
      PrependAllAppend(value, tree[q] % 256, Decode(tree, [], all[k + 1..]));
    }
  }

  lemma StartOfBits(tree: Tree, all: BitString)
    ensures PrependAll([], Decode(tree, [], all[0..])) == Decode(tree, [], all) && Pow2(7) == 128
  {
    PrependNone(Decode(tree, [], all));
    assert all[0..] == all;
  }

  lemma EndOfBits(tree: Tree, value: seq<Byte>, p: BitString, rest: BitString)
    ensures rest == [] ==> PrependAll(value, Decode(tree, p, rest)) == Some(value)
  {
    assert value + [] == value;
  }

  class HuffmanTree {
    const root: Node
    ghost var tree: Tree                     // the tree as a value
    ghost var nodes: map<BitString, Node>    // the object for each of its paths
    ghost var paths: map<Node, BitString>    // and back

    static function Ref(n: Node?): Option<Node> {
      if n == null then None else Some(n)
    }

    static ghost function FieldsOf(n: Node): Fields<Node>
      reads n
    {
      Fields(n.symbol, Ref(n.left), Ref(n.right))
    }

    ghost function Heap(): map<Node, Fields<Node>>
      reads this, paths.Keys
    {
      map n | n in paths :: FieldsOf(n)
    }

    ghost predicate Valid()
      reads this, paths.Keys
    {
      Represents(Heap(), nodes, paths, tree) && [] in nodes && nodes[[]] == root
    }

    constructor Empty()
      ensures Valid() && tree == map[[] := -1] && fresh(paths.Keys)
    {
      var r := new Node();
      root := r;
      tree := map[[] := -1];
      nodes := map[[] := r];
      paths := map[r := []];
    }

    /** The child of curr on side x is created unless it is there. */
    method Descend(curr: Node, x: bool, ghost p: BitString) returns (next: Node)
      requires Valid() && p in nodes && nodes[p] == curr && curr in paths
      requires p + [x] !in nodes ==> p + [x] + [false] !in nodes && p + [x] + [true] !in nodes
      modifies this, curr
      ensures Valid() && tree == if p + [x] in old(nodes) then old(tree) else old(tree)[p + [x] := -1]
      ensures p + [x] in nodes && nodes[p + [x]] == next && next in paths && paths[next] == p + [x]
      ensures fresh(paths.Keys - old(paths.Keys)) && old(paths.Keys) <= paths.Keys
    {
      NodeFields(p);
      if x {
        if curr.right == null {
          next := Grow(curr, x, p);
        } else {
          next := curr.right;
          NodeFields(p + [x]);
        }
      } else {
        if curr.left == null {
          next := Grow(curr, x, p);
        } else {
          next := curr.left;
          NodeFields(p + [x]);
        }
      }
    }

    method Grow(curr: Node, x: bool, ghost p: BitString) returns (next: Node)
      requires Valid() && p in nodes && nodes[p] == curr && curr in paths
      requires p + [x] !in nodes && p + [x] + [false] !in nodes && p + [x] + [true] !in nodes
      modifies this, curr
      ensures Valid() && tree == old(tree)[p + [x] := -1]
      ensures p + [x] in nodes && nodes[p + [x]] == next && next in paths && paths[next] == p + [x]
      ensures fresh(paths.Keys - old(paths.Keys)) && old(paths.Keys) <= paths.Keys
    {
      hide *;
      next := new Node();
      Hang(curr, x, next, p);
    }

    method Hang(curr: Node, x: bool, next: Node, ghost p: BitString)
      requires Valid() && p in nodes && nodes[p] == curr && curr in paths
      requires p + [x] !in nodes && p + [x] + [false] !in nodes && p + [x] + [true] !in nodes
      requires next !in paths && next.symbol == -1 && next.left == null && next.right == null
      modifies this, curr
      ensures Valid() && tree == old(tree)[p + [x] := -1]
      ensures p + [x] in nodes && nodes[p + [x]] == next && paths == old(paths)[next := p + [x]]
    {
      hide Represents;
      ghost var heap: map<Node, Fields<Node>> := Heap();
      GrowRepresents(heap, nodes, paths, tree, p, x, next);
      ghost var f := WithChild(heap[curr], x, next);
      LinkChild(curr, x, next, heap);
      assert |p + [x]| > 0;
      nodes := nodes[p + [x] := next];
      paths := paths[next := p + [x]];
      tree := tree[p + [x] := -1];
      assert Heap() == heap[curr := f][next := Fields(-1, None, None)] by { MatchesAll(heap[curr := f], next); }
    }

    /** The objects of heap hold what it says. */
    static ghost predicate Matches(heap: map<Node, Fields<Node>>)
      reads heap.Keys
    {
      forall n :: n in heap ==> heap[n] == FieldsOf(n)
    }

    static method LinkChild(curr: Node, x: bool, next: Node, ghost heap: map<Node, Fields<Node>>)
      requires Matches(heap) && curr in heap
      modifies curr
      ensures Matches(heap[curr := WithChild(heap[curr], x, next)])
    {
      if x {
        curr.right := next;
      } else {
        curr.left := next;
      }
    }

    lemma MatchesAll(heap: map<Node, Fields<Node>>, next: Node)
      requires Matches(heap) && next.symbol == -1 && next.left == null && next.right == null && paths.Keys == heap.Keys + {next}
      ensures Heap() == heap[next := Fields(-1, None, None)]
    {
    }

    method SetLeaf(curr: Node, symbol: int, ghost p: BitString)
      requires Valid() && p in nodes && nodes[p] == curr && curr in paths
      modifies this, curr
      ensures Valid() && tree == old(tree)[p := symbol] && nodes == old(nodes) && paths == old(paths)
    {
      hide Represents;
      MarkRepresents(Heap(), nodes, paths, tree, p, symbol);
      curr.symbol := symbol;
      tree := tree[p := symbol];
      assert Heap() == old(Heap())[curr := old(Heap())[curr].(symbol := symbol)];
    }

    /** What the object for p holds. */
    lemma NodeFields(p: BitString)
      requires Valid() && p in nodes
      ensures p in tree && nodes[p] in paths && paths[nodes[p]] == p && nodes[p].symbol == tree[p]
      ensures nodes[p].left == (if p + [false] in nodes then nodes[p + [false]] else null)
      ensures nodes[p].right == (if p + [true] in nodes then nodes[p + [true]] else null)
    {
      assert Mirror(Heap()[nodes[p]], nodes, tree, p);
    }

    /** The first k bits of the code of row lead to curr, and nothing else of that code is built yet. */
    ghost predicate At(table: seq<Code>, row: nat, curr: Node, k: nat)
      reads this, paths.Keys
      requires row < |table|
    {
      && Valid() && k <= table[row].len && curr in paths
      && paths[curr] == CodeBits(table, row)[..k]
      && PartTree(tree, table, row, paths[curr])
    }

    /** One bit of a code: the step down the tree, made if need be. */
    method AddBit(table: seq<Code>, row: nat, curr: Node, bit: nat, ghost k: nat) returns (next: Node)
      requires row < |table| && k < table[row].len && bit == Pow2(table[row].len - 1 - k)
      requires At(table, row, curr, k)
      modifies this, curr
      ensures At(table, row, next, k + 1) && next in paths
      ensures fresh(paths.Keys - old(paths.Keys))
    {
      ghost var b := CodeBits(table, row);
      NodeOfPath(curr);
      hide Represents, PartTree, Heap, BitsOf, BitSet;
      BitOfCode(table, row, k);
      PartTreeStep(tree, table, row, b, k);
      assert b[..k + 1] == b[..k] + [b[k]];
      TreeIsNodes();
      next := Descend(curr, BitSet(table[row].code, bit), b[..k]);
    }

    /** The way of one row's code is created bit by bit. */
    method AddWay(table: seq<Code>, row: nat) returns (curr: Node)
      requires Valid() && row < |table| && table[row].len >= 1 && PartTree(tree, table, row, [])
      modifies this, paths.Keys
      ensures At(table, row, curr, table[row].len) && fresh(paths.Keys - old(paths.Keys))
    {
      hide *;
      curr := root;
      var bit := Pow2(table[row].len - 1);
      ghost var n, k := table[row].len, 0;
      AtRoot(table, row);
      while bit != 0
        invariant k <= n && bit == (if k < n then Pow2(n - 1 - k) else 0)
        invariant At(table, row, curr, k) && fresh(paths.Keys - old(paths.Keys)) && curr in paths
        decreases n - k
      {
        curr := AddBit(table, row, curr, bit, k);
        HalfPow(n - 1 - k);
        bit := bit / 2;
        k := k + 1;
      }
    }

    /** One row of the table: its way is created, its leaf gets the symbol. */
    method AddRow(table: seq<Code>, row: nat)
      requires Valid() && row < |table| && table[row].len >= 1 && PartTree(tree, table, row, [])
      modifies this, paths.Keys
      ensures Valid() && PartTree(tree, table, row + 1, []) && fresh(paths.Keys - old(paths.Keys))
    {
      hide Represents, PartTree, Heap, BitsOf;
      var curr := AddWay(table, row);
      NodeOfPath(curr);
      assert CodeBits(table, row)[..table[row].len] == CodeBits(table, row);
      PartTreeMark(tree, table, row);
      SetLeaf(curr, row, CodeBits(table, row));
    }

    lemma TreeIsNodes()
      requires Valid()
      ensures nodes.Keys == tree.Keys
    {
    }

    /** created_huffman_tree: the tree of a whole table. */
    static method Created(table: seq<Code>) returns (t: HuffmanTree)
      requires forall i :: 0 <= i < |table| ==> table[i].len >= 1
      ensures fresh(t) && fresh(t.paths.Keys) && t.Valid() && IsTreeOf(t.tree, table)
    {
      t := new HuffmanTree.Empty();
      hide Represents, PartTree;
      EmptyPartTree(table);
      for symbol := 0 to |table|
        invariant fresh(t) && fresh(t.paths.Keys) && t.Valid() && PartTree(t.tree, table, symbol, [])
      {
        t.AddRow(table, symbol);
      }
      PartTreeDone(t.tree, table);
    }

    /**
      One bit of the stream: the step to the child, which may be missing, and at a leaf the symbol;
      stop says that the walk is over, ok that it ended well.
     */
    method TakeBit(byte: Byte, bit: nat, curr: Node, value: seq<Byte>, ghost p: BitString, ghost all: BitString, ghost k: nat)
      returns (stop: bool, ok: bool, next: Node, value': seq<Byte>, ghost p': BitString)
      requires Valid() && p in nodes && nodes[p] == curr
      requires k < |all| && bit >= 1 && BitSet(byte, bit) == all[k]
      ensures p' in nodes && nodes[p'] == next
      ensures PrependAll(value, Decode(tree, p, all[k..]))
              == if !stop then PrependAll(value', Decode(tree, p', all[k + 1..])) else if ok then Some(value') else None
    {
      hide *;
      NodeFields(p);
      TreeIsNodes();
      RootNode();
      DecodeStep(tree, value, p, all, k);
      stop, ok, value', p' := true, true, value, p + [all[k]];
      var child := if !BitSet(byte, bit) then curr.left else curr.right;
      if child == null {
        return true, false, root, value, [];
      }
      next := child;
      NodeFields(p');
      LeafMeans(tree, p');
      stop := false;
      if next.left == null && next.right == null {
        if next.symbol == EOS {
          stop := true;
        } else {
          value' := value + [next.symbol % 256];
          next, p' := root, [];
        }
      }
    }

    /**
      get_huffman_string: the walk over the tree, bit by bit; ok is false where the source would
      follow a null pointer.
     */
    method GetHuffmanString(stream: seq<Byte>) returns (ok: bool, value: seq<Byte>)
      requires Valid()
      ensures Decode(tree, [], BitsOfBytes(stream)) == if ok then Some(value) else None
    {
      hide *;
      ghost var all := BitsOfBytes(stream);
      value := [];
      var curr := root;
      ghost var p: BitString, k := [], 0;
      StartOfBits(tree, all);
      RootNode();
      for i := 0 to |stream|
        invariant p in nodes && nodes[p] == curr && k == 8 * i
        invariant PrependAll(value, Decode(tree, p, all[k..])) == Decode(tree, [], all)
      {
        var bit := 128;
        ghost var j := 0;
        while bit != 0
          invariant j <= 8 && k == 8 * i + j && bit == (if j < 8 then Pow2(7 - j) else 0)
          invariant p in nodes && nodes[p] == curr
          invariant PrependAll(value, Decode(tree, p, all[k..])) == Decode(tree, [], all)
          decreases 8 - j
        {
          BitOfStream(stream, i, j);
          HalfPow(7 - j);
          var stop;
          stop, ok, curr, value, p := TakeBit(stream[i], bit, curr, value, p, all, k);
          if stop {
            return ok, value;
          }
          bit := bit / 2;
          k, j := k + 1, j + 1;
        }
      }
      EndOfBits(tree, value, p, all[k..]);
      ok := true;
    }

    lemma NodeOfPath(n: Node)
      requires Valid() && n in paths
      ensures paths[n] in nodes && nodes[paths[n]] == n
    {
    }

    lemma AtRoot(table: seq<Code>, row: nat)
      requires Valid() && row < |table| && PartTree(tree, table, row, [])
      ensures root in paths && At(table, row, root, 0)
    {
      RootNode();
      assert CodeBits(table, row)[..0] == [];
    }

    lemma RootNode()
      requires Valid()
      ensures [] in nodes && nodes[[]] == root && root in paths && paths[root] == []
    {
    }
  }
}
