/**
  The tree of core/include/mms/ds/prefixmap.h with its edges, still without pointers.
  A node's path is cut in two: up to start the way in, from there on the node's own fragment.
  The root is the one node with nothing before its fragment.
 */
module PrefixTrie {
  import opened PrefixShape

  datatype Entry<V> = Entry(value: V, start: nat, kids: map<char, string>)
  datatype Trie<V> = Trie(root: string, at: map<string, Entry<V>>)

  /** The part of a node's path before its own fragment. */
  function Way<V>(t: Trie<V>, p: string): (e: string)
    requires p in t.at && t.at[p].start <= |p|
    ensures e <= p && |e| == t.at[p].start
  {
    p[..t.at[p].start]
  }

  /** The path of a node's parent: the way in without the character that picks the child. */
  function Up<V>(t: Trie<V>, p: string): (e: string)
    requires p in t.at && 0 < t.at[p].start <= |p|
    ensures e < p && |e| == t.at[p].start - 1
  {
    p[..t.at[p].start - 1]
  }

  ghost predicate KidOk<V>(t: Trie<V>, p: string, c: char)
    requires p in t.at && c in t.at[p].kids
  {
    var q := t.at[p].kids[c];
    q in t.at && t.at[q].start == |p| + 1 && p + [c] <= q
  }

  /** A node is linked from its parent, and links its children one step further down. */
  ghost predicate NodeOk<V>(t: Trie<V>, p: string)
    requires p in t.at
  {
    && t.at[p].start <= |p|
    && (t.at[p].start == 0 ==> p == t.root)
    && (t.at[p].start > 0 ==>
          var up, c := Up(t, p), p[t.at[p].start - 1];
          up in t.at && c in t.at[up].kids && t.at[up].kids[c] == p)
    && (forall c :: c in t.at[p].kids ==> KidOk(t, p, c))
  }

  ghost predicate IsTrie<V>(t: Trie<V>) {
    && t.root in t.at && t.at[t.root].start == 0
    && forall p {:trigger NodeOk(t, p)} :: p in t.at ==> NodeOk(t, p)
  }

  /** Two prefixes of one string: the shorter is a prefix of the longer. */
  lemma Nested(a: string, b: string, s: string)
    requires a <= s && b <= s && |a| <= |b|
    ensures a <= b
  {
    assert a == s[..|a|] == b[..|a|];
  }

  /** A path that comes in the way p does goes all the way through p. */
  lemma {:induction false} Funnel<V>(t: Trie<V>, p: string, q: string)
    requires IsTrie(t) && p in t.at && q in t.at && NodeOk(t, p) && NodeOk(t, q) && Way(t, p) <= q
    ensures p <= q
    decreases |p| + |q|
  {
    var e := Way(t, p);
    if t.at[q].start < |e| {
      Nested(Way(t, q), e, q);
      Nested(Way(t, q), Up(t, p), p);
      assert NodeOk(t, Up(t, p));
      Funnel(t, q, Up(t, p));
    } else if t.at[q].start > |e| {
      Nested(e, Up(t, q), q);
      assert NodeOk(t, Up(t, q));
      Funnel(t, p, Up(t, q));
    } else if |e| > 0 {
      assert Up(t, p) == e[..|e| - 1] == Up(t, q);
      assert p[|e| - 1] == e[|e| - 1] == q[|e| - 1];
    }
  }

  /** Below node p, a longer path goes through the child of p that its next character names. */
  lemma {:induction false} Descend<V>(t: Trie<V>, p: string, q: string)
    requires IsTrie(t) && p in t.at && q in t.at && p < q
    ensures q[|p|] in t.at[p].kids && t.at[p].kids[q[|p|]] <= q
    decreases |q|
  {
    assert NodeOk(t, p) && NodeOk(t, q);
    if t.at[q].start <= |p| {
      Nested(Way(t, q), p, q);
      Funnel(t, q, p);
    } else if t.at[q].start == |p| + 1 {
      Nested(p, Up(t, q), q);
      assert p == Up(t, q);
    } else {
      Nested(p, Up(t, q), q);
      Descend(t, p, Up(t, q));
      assert Up(t, q)[|p|] == q[|p|];
    }
  }

  lemma KidNamesParent<V>(t: Trie<V>, p: string, c: char)
    requires p in t.at && c in t.at[p].kids && KidOk(t, p, c)
    ensures Up(t, t.at[p].kids[c]) == p && t.at[p].kids[c][|p|] == c
  {
    var q := t.at[p].kids[c];
    assert q[..|p|] == (p + [c])[..|p|];
    assert q[|p|] == (p + [c])[|p|];
  }

  /** Inside p's fragment there is no node. */
  lemma EdgeIsFree<V>(t: Trie<V>, p: string, i: nat)
    requires IsTrie(t) && p in t.at && t.at[p].start <= i < |p|
    ensures p[..i] !in t.at
  {
    assert NodeOk(t, p);
    Nested(Way(t, p), p[..i], p);
    if p[..i] in t.at {
      assert NodeOk(t, p[..i]);
      Funnel(t, p, p[..i]);
    }
  }

  /** The tree after p's fragment is cut at i: the upper part keeps the way in, the lower one hangs below it. */
  function Split<V>(t: Trie<V>, p: string, i: nat, dflt: V): (r: Trie<V>)
    requires p in t.at && t.at[p].start <= i < |p|
  {
    var upper := p[..i];
    var e := t.at[p];
    var linked := if e.start > 0 && Up(t, p) in t.at then
                    t.at[Up(t, p) := t.at[Up(t, p)].(kids := t.at[Up(t, p)].kids[p[e.start - 1] := upper])]
                  else t.at;
    Trie(if p == t.root then upper else t.root,
         linked[upper := Entry(dflt, e.start, map[p[i] := p])][p := e.(start := i + 1)])
  }

  lemma SplitKeepsTrie<V>(t: Trie<V>, p: string, i: nat, dflt: V)
    requires IsTrie(t) && p in t.at && t.at[p].start <= i < |p|
    ensures IsTrie(Split(t, p, i, dflt)) && p[..i] !in t.at
    ensures Split(t, p, i, dflt).at.Keys == t.at.Keys + {p[..i]}
    ensures Split(t, p, i, dflt).root == if p == t.root then p[..i] else t.root
  {
    EdgeIsFree(t, p, i);
    var r, upper := Split(t, p, i, dflt), p[..i];
    assert NodeOk(t, p) && NodeOk(t, t.root);
    SplitRoot(t, p, i, dflt);
    hide Split, NodeOk;
    forall q | q in r.at ensures NodeOk(r, q) {
      if q == upper {
        SplitUpperOk(t, p, i, dflt);
      } else if q == p {
        SplitLowerOk(t, p, i, dflt);
      } else {
        assert NodeOk(t, q);
        SplitOtherOk(t, p, i, dflt, q);
      }
    }
  }

  lemma SplitRoot<V>(t: Trie<V>, p: string, i: nat, dflt: V)
    requires p in t.at && t.at[p].start <= i < |p| && NodeOk(t, p) && t.root in t.at && t.at[t.root].start == 0
    requires p[..i] !in t.at
    ensures var r := Split(t, p, i, dflt);
            && r.at.Keys == t.at.Keys + {p[..i]}
            && r.root == (if p == t.root then p[..i] else t.root) && r.root in r.at && r.at[r.root].start == 0
    ensures p == t.root <==> t.at[p].start == 0
  {
  }

  lemma SplitUpperOk<V>(t: Trie<V>, p: string, i: nat, dflt: V)
    requires p in t.at && t.at[p].start <= i < |p| && NodeOk(t, p) && p[..i] !in t.at
    ensures NodeOk(Split(t, p, i, dflt), p[..i])
  {
    var r, upper := Split(t, p, i, dflt), p[..i];
    assert t.at[p].start > 0 ==> Up(r, upper) == Up(t, p) && upper[t.at[p].start - 1] == p[t.at[p].start - 1];
    assert upper + [p[i]] <= p;
  }

  lemma SplitLowerOk<V>(t: Trie<V>, p: string, i: nat, dflt: V)
    requires p in t.at && t.at[p].start <= i < |p| && NodeOk(t, p) && p[..i] !in t.at
    ensures NodeOk(Split(t, p, i, dflt), p)
  {
    var r, upper := Split(t, p, i, dflt), p[..i];
    assert Up(r, p) == upper;
    forall c | c in r.at[p].kids ensures KidOk(r, p, c) {
      assert KidOk(t, p, c);
    }
  }

  lemma SplitOtherOk<V>(t: Trie<V>, p: string, i: nat, dflt: V, q: string)
    requires p in t.at && t.at[p].start <= i < |p| && NodeOk(t, p) && p[..i] !in t.at
    requires q in t.at && q != p && NodeOk(t, q)
    requires p == t.root <==> t.at[p].start == 0
    ensures NodeOk(Split(t, p, i, dflt), q)
  {
    var r, upper := Split(t, p, i, dflt), p[..i];
    assert t.at[q].start > 0 ==> Up(r, q) == Up(t, q);
    forall c | c in r.at[q].kids ensures KidOk(r, q, c) {
      if t.at[p].start > 0 && q == Up(t, p) && c == p[t.at[p].start - 1] {
        assert q + [c] == p[..t.at[p].start] == upper[..t.at[p].start];
      } else {
        SplitKidSame(t, p, i, dflt, q, c);
      }
    }
  }

  /** A link that does not lead to p is left alone. */
  lemma SplitKidSame<V>(t: Trie<V>, p: string, i: nat, dflt: V, q: string, c: char)
    requires p in t.at && t.at[p].start <= i < |p| && NodeOk(t, p) && p[..i] !in t.at
    requires q in t.at && q != p && NodeOk(t, q) && c in t.at[q].kids
    requires !(t.at[p].start > 0 && q == Up(t, p) && c == p[t.at[p].start - 1])
    requires p == t.root <==> t.at[p].start == 0
    ensures var r := Split(t, p, i, dflt); q in r.at && c in r.at[q].kids && KidOk(r, q, c)
  {
    assert KidOk(t, q, c);
    KidNamesParent(t, q, c);
  }

  /** A split redirects exactly the link to p, and changes nothing else outside p. */
  lemma SplitElsewhere<V>(t: Trie<V>, p: string, i: nat, dflt: V, q: string)
    requires IsTrie(t) && p in t.at && t.at[p].start <= i < |p| && q in t.at && q != p && p[..i] !in t.at
    ensures q in Split(t, p, i, dflt).at
    ensures var e, f := t.at[q], Split(t, p, i, dflt).at[q];
            && f.value == e.value && f.start == e.start && f.kids.Keys == e.kids.Keys
            && forall c :: c in e.kids ==> e.kids[c] in t.at && f.kids[c] == if e.kids[c] == p then p[..i] else e.kids[c]
  {
    assert NodeOk(t, p) && NodeOk(t, q);
    forall c | c in t.at[q].kids
      ensures t.at[q].kids[c] in t.at
      ensures t.at[p].start > 0 ==> (t.at[q].kids[c] == p <==> q == Up(t, p) && c == p[t.at[p].start - 1])
      ensures t.at[p].start == 0 ==> t.at[q].kids[c] != p
    {
      assert KidOk(t, q, c);
      KidNamesParent(t, q, c);
    }
  }

  /** The tree after a leaf for key is hung below node p. */
  function Leaf<V>(t: Trie<V>, p: string, key: string, value: V): (r: Trie<V>)
    requires p in t.at && |p| < |key|
    ensures r.at.Keys == t.at.Keys + {key} && r.root == t.root
  {
    t.(at := t.at[p := t.at[p].(kids := t.at[p].kids[key[|p|] := key])][key := Entry(value, |p| + 1, map[])])
  }

  lemma LeafKeepsTrie<V>(t: Trie<V>, p: string, key: string, value: V)
    requires IsTrie(t) && p in t.at && p < key && key[|p|] !in t.at[p].kids
    ensures key !in t.at && IsTrie(Leaf(t, p, key, value))
  {
    var r := Leaf(t, p, key, value);
    if key in t.at { Descend(t, p, key); }
    assert Up(r, key) == p;
    forall q | q in r.at ensures NodeOk(r, q) {
      if q in t.at {
        assert NodeOk(t, q);
        assert t.at[q].start > 0 ==> Up(r, q) == Up(t, q);
        forall c | c in r.at[q].kids ensures KidOk(r, q, c) {
          if c in t.at[q].kids { assert KidOk(t, q, c); }
        }
      }
    }
  }

  /** Below a node without a child for the next character of key there is nothing on the way of key. */
  lemma NothingBelow<V>(t: Trie<V>, p: string, key: string)
    requires IsTrie(t) && p in t.at && p < key && key[|p|] !in t.at[p].kids
    ensures !Covers(t.at.Keys, key[..|p| + 1])
  {
    forall q ensures !(q in t.at.Keys && key[..|p| + 1] <= q) {
      if q in t.at && p < q {
        Descend(t, p, q);
      }
      assert key[..|p| + 1] <= q ==> p < q && q[|p|] == key[|p|];
    }
  }

  /** Where key leaves p's fragment, it leaves the whole tree. */
  lemma NothingBeside<V>(t: Trie<V>, p: string, key: string, i: nat)
    requires IsTrie(t) && p in t.at && t.at[p].start <= i < |p| && i < |key|
    requires key[..i] == p[..i] && key[i] != p[i]
    ensures !Covers(t.at.Keys, key[..i + 1])
  {
    assert NodeOk(t, p);
    assert Way(t, p) == p[..i][..t.at[p].start] == key[..i + 1][..t.at[p].start];
    forall q ensures !(q in t.at.Keys && key[..i + 1] <= q) {
      if q in t.at && Way(t, p) <= q {
        assert NodeOk(t, q);
        Funnel(t, p, q);
        assert q[i] == p[i];
      }
      assert key[..i + 1] <= q ==> Way(t, p) <= q && q[i] == key[i];
    }
  }

  /** The tree as PrefixShape sees it. */
  function Values<V>(t: Trie<V>): (m: map<string, V>)
    ensures m.Keys == t.at.Keys
  {
    map p | p in t.at :: t.at[p].value
  }

  /** The tree with another value at node p. */
  function SetValue<V>(t: Trie<V>, p: string, value: V): (r: Trie<V>)
    requires p in t.at
  {
    t.(at := t.at[p := t.at[p].(value := value)])
  }

  lemma SetValueKeepsTrie<V>(t: Trie<V>, p: string, value: V)
    requires IsTrie(t) && p in t.at
    ensures IsTrie(SetValue(t, p, value))
  {
    var r := SetValue(t, p, value);
    forall q | q in r.at ensures NodeOk(r, q) {
      assert NodeOk(t, q);
      assert t.at[q].start > 0 ==> Up(r, q) == Up(t, q);
      forall c | c in r.at[q].kids ensures KidOk(r, q, c) {
        assert KidOk(t, q, c);
      }
    }
  }

  // The four ways an insert can end, each against PrefixShape.Put.

  /** The key is a node already. */
  lemma PutAtNode<V>(t: Trie<V>, p: string, value: V, dflt: V)
    requires p in t.at
    ensures Values(SetValue(t, p, value)) == Put(Values(t), p, value, dflt)
  {
    assert Covers(t.at.Keys, p);
    SharedUnique(t.at.Keys, p, p);
  }

  /** The key leaves the tree below node p. */
  lemma PutBelowNode<V>(t: Trie<V>, p: string, key: string, value: V, dflt: V)
    requires IsTrie(t) && p in t.at && p < key && key[|p|] !in t.at[p].kids
    ensures Values(SetValue(Leaf(t, p, key, dflt), key, value)) == Put(Values(t), key, value, dflt)
  {
    NothingBelow(t, p, key);
    assert Covers(t.at.Keys, p);
    SharedUnique(t.at.Keys, key, p);
  }

  /** The key ends inside p's fragment. */
  lemma PutInsideEdge<V>(t: Trie<V>, p: string, i: nat, value: V, dflt: V)
    requires IsTrie(t) && p in t.at && t.at[p].start <= i < |p|
    ensures Values(SetValue(Split(t, p, i, dflt), p[..i], value)) == Put(Values(t), p[..i], value, dflt)
  {
    EdgeIsFree(t, p, i);
    SplitValues(t, p, i, dflt);
    assert Covers(t.at.Keys, p[..i]);
    SharedUnique(t.at.Keys, p[..i], p[..i]);
  }

  /** The key leaves the tree inside p's fragment. */
  lemma PutBesideEdge<V>(t: Trie<V>, p: string, i: nat, key: string, value: V, dflt: V)
    requires IsTrie(t) && p in t.at && t.at[p].start <= i < |p| && i < |key|
    requires key[..i] == p[..i] && key[i] != p[i]
    ensures Values(SetValue(Leaf(Split(t, p, i, dflt), p[..i], key, dflt), key, value)) == Put(Values(t), key, value, dflt)
  {
    EdgeIsFree(t, p, i);
    NothingBeside(t, p, key, i);
    SplitValues(t, p, i, dflt);
    assert p[..i] <= key && p[..i] <= p && Covers(t.at.Keys, p[..i]);
    SharedUnique(t.at.Keys, key, p[..i]);
  }

  lemma SplitValues<V>(t: Trie<V>, p: string, i: nat, dflt: V)
    requires IsTrie(t) && p in t.at && t.at[p].start <= i < |p| && p[..i] !in t.at
    ensures Values(Split(t, p, i, dflt)) == Values(t)[p[..i] := dflt]
  {
    SplitKeepsTrie(t, p, i, dflt);
    forall q | q in t.at && q != p ensures Split(t, p, i, dflt).at[q].value == t.at[q].value {
      SplitElsewhere(t, p, i, dflt, q);
    }
  }

  // How the walk over the key follows PrefixShape.Effective.

  /** The rest of the effective key once p is matched to its end. */
  ghost function AfterNode(paths: set<string>, p: string, r: string): string {
    if r == "" then p else Effective(paths, p + [r[0]], r[1..])
  }

  lemma EffectiveOffTree(paths: set<string>, e: string, r: string)
    requires !Covers(paths, e)
    ensures Effective(paths, e, r) == e + r
  {
    if r != "" {
      forall q ensures !(q in paths && e + [r[0]] <= q) {
        assert e + [r[0]] <= q ==> e <= q;
      }
    } else {
      assert e + r == e;
    }
  }

  /** Matched to the end with no NUL to drop: the next character picks the child. */
  lemma EffectiveAtNode(paths: set<string>, p: string, r: string)
    requires p in paths && (r != "" ==> r[0] != NUL)
    ensures Effective(paths, p, r) == AfterNode(paths, p, r)
  {
    if r != "" && !Covers(paths, p + [r[0]]) {
      EffectiveOffTree(paths, p + [r[0]], r[1..]);
      assert p + r == p + [r[0]] + r[1..];
    }
  }

  /** Matched to the end and a NUL to drop: the character behind it picks the child. */
  lemma EffectiveDropsNul(paths: set<string>, p: string, r: string)
    requires p in paths && r != "" && r[0] == NUL
    ensures Effective(paths, p, r) == AfterNode(paths, p, r[1..])
  {
    assert |r| > 1 ==> r[2..] == r[1..][1..];
  }

  /** One more character of p's fragment matched. */
  lemma EffectiveInsideEdge<V>(t: Trie<V>, p: string, i: nat, r: string)
    requires IsTrie(t) && p in t.at && t.at[p].start <= i < |p| && r != "" && r[0] == p[i]
    ensures Effective(t.at.Keys, p[..i], r) == Effective(t.at.Keys, p[..i + 1], r[1..])
  {
    EdgeIsFree(t, p, i);
    assert p[..i] + [r[0]] == p[..i + 1] <= p;
  }

  /** The key leaves p's fragment: the rest is taken as it is. */
  lemma EffectiveBesideEdge<V>(t: Trie<V>, p: string, i: nat, r: string)
    requires IsTrie(t) && p in t.at && t.at[p].start <= i < |p| && (r != "" ==> r[0] != p[i])
    ensures Effective(t.at.Keys, p[..i], r) == p[..i] + r
  {
    if r == "" {
      assert p[..i] + r == p[..i];
    } else {
      EdgeIsFree(t, p, i);
      var key := p[..i] + r;
      NothingBeside(t, p, key, i);
      assert key[..i + 1] == p[..i] + [r[0]];
    }
  }

  /** No child for the next character: the rest is taken as it is. */
  lemma EffectiveBelowNode<V>(t: Trie<V>, p: string, r: string)
    requires IsTrie(t) && p in t.at && r != "" && r[0] !in t.at[p].kids
    ensures AfterNode(t.at.Keys, p, r) == p + r
  {
    var key := p + r;
    NothingBelow(t, p, key);
    assert key[..|p| + 1] == p + [r[0]];
    EffectiveOffTree(t.at.Keys, p + [r[0]], r[1..]);
    assert p + r == p + [r[0]] + r[1..];
  }

  /** What the fragment scanner has read: n characters of the key from index on, the last perhaps a dropped NUL. */
  ghost predicate Scanned(fragment: string, key: string, index: nat, n: nat) {
    && n <= |fragment| + 1 && index + n <= |key|
    && (forall i :: 0 <= i < n && i < |fragment| ==> fragment[i] == key[index + i])
    && (n == |fragment| + 1 ==> key[index + |fragment|] == NUL)
  }

  ghost predicate ScanStops(fragment: string, key: string, index: nat, n: nat) {
    n <= |fragment| && index + n < |key| ==> key[index + n] != if n < |fragment| then fragment[n] else NUL
  }

  /** The effective key once p's fragment has been scanned. */
  lemma {:induction false} EffectiveAfterScan<V>(t: Trie<V>, p: string, key: string, index: nat, n: nat)
    requires IsTrie(t) && p in t.at && t.at[p].start <= |p|
    requires Scanned(p[t.at[p].start..], key, index, n) && ScanStops(p[t.at[p].start..], key, index, n)
    ensures Effective(t.at.Keys, Way(t, p), key[index..]) ==
            if t.at[p].start + n < |p| then p[..t.at[p].start + n] + key[index + n..]
            else AfterNode(t.at.Keys, p, key[index + n..])
  {
    hide IsTrie, Effective;
    var s := t.at[p].start;
    var fragment := p[s..];
    var k := if n <= |fragment| then n else |fragment|;
    EffectiveAlongEdge(t, p, key, index, k);
    var rest := key[index + k..];
    if k < |fragment| {
      assert rest != "" ==> rest[0] == key[index + k] && fragment[k] == p[s + k];
      EffectiveBesideEdge(t, p, s + k, rest);
    } else {
      assert p[..s + k] == p;
      if n == k {
        assert rest != "" ==> rest[0] == key[index + k];
        EffectiveAtNode(t.at.Keys, p, rest);
      } else {
        assert rest[0] == NUL && rest[1..] == key[index + n..];
        EffectiveDropsNul(t.at.Keys, p, rest);
      }
    }
  }

  lemma RestOf(key: string, i: nat)
    requires i < |key|
    ensures key[i..] != "" && key[i..][0] == key[i] && key[i..][1..] == key[i + 1..]
  {
  }

  lemma {:induction false} EffectiveAlongEdge<V>(t: Trie<V>, p: string, key: string, index: nat, k: nat)
    requires IsTrie(t) && p in t.at && t.at[p].start + k <= |p| && index + k <= |key|
    requires Scanned(p[t.at[p].start..], key, index, k)
    ensures Effective(t.at.Keys, Way(t, p), key[index..]) ==
            Effective(t.at.Keys, p[..t.at[p].start + k], key[index + k..])
  {
    hide IsTrie, Effective;
    if k > 0 {
      EffectiveAlongEdge(t, p, key, index, k - 1);
      RestOf(key, index + k - 1);
      assert p[t.at[p].start..][k - 1] == key[index + (k - 1)];
      EffectiveInsideEdge(t, p, t.at[p].start + k - 1, key[index + k - 1..]);
    }
  }

  /** A tree that consists of the root only, with nothing in its fragment. */
  lemma UnusedTree<V>(t: Trie<V>)
    requires IsTrie(t)
    ensures t.at.Keys == {""} <==> t.root == "" && t.at[t.root].kids == map[]
  {
    assert NodeOk(t, t.root);
    if t.root == "" && t.at[t.root].kids == map[] {
      forall q | q in t.at ensures q == "" {
        if q != "" { Descend(t, "", q); }
      }
    }
    if t.at[t.root].kids != map[] {
      var c :| c in t.at[t.root].kids;
      assert KidOk(t, t.root, c);
      assert t.at[t.root].kids[c] in t.at.Keys;
    }
    assert t.root in t.at.Keys;
  }

  // The nodes on the way of a query.

  /** The query leaves the tree below p, or ends there. */
  lemma DeepestAtNode<V>(t: Trie<V>, p: string, key: string)
    requires IsTrie(t) && p in t.at && p <= key && (p != key ==> key[|p|] !in t.at[p].kids)
    ensures IsDeepest(t.at.Keys, key, p)
  {
    forall q | q in t.at.Keys && q <= key ensures |q| <= |p| {
      if |p| < |q| {
        assert q[|p|] == key[|p|];
        Nested(p, q, key);
        Descend(t, p, q);
      }
    }
  }

  /** The query leaves the tree inside p's fragment, so only p's parent and what is above it lie on its way. */
  lemma DeepestAboveEdge<V>(t: Trie<V>, p: string, key: string, q: string)
    requires IsTrie(t) && p in t.at && t.at[p].start <= |p| && Way(t, p) <= key && !(p <= key)
    requires q in t.at && q <= key
    ensures |q| < t.at[p].start
  {
    assert NodeOk(t, p) && NodeOk(t, q);
    if t.at[p].start <= |q| {
      assert p <= q ==> p <= key;
      Nested(Way(t, p), q, key);
      Funnel(t, p, q);
    }
  }

  // The walk of insert, from node p with the key read up to index.

  /** The walk has come in at p, and what it has read and what is left make up the effective key. */
  ghost predicate Walking<V>(t: Trie<V>, p: string, key: string, index: nat) {
    && p in t.at && t.at[p].start <= |p| && index <= |key|
    && Effective(t.at.Keys, Way(t, p), key[index..]) == Effective(t.at.Keys, "", key)
  }

  lemma WalkStarts<V>(t: Trie<V>, key: string)
    requires IsTrie(t)
    ensures Walking(t, t.root, key, 0)
  {
    assert NodeOk(t, t.root);
    assert Way(t, t.root) == "" && key[0..] == key;
  }

  /** The walk goes on into the child for the next character. */
  lemma WalkDescends<V>(t: Trie<V>, p: string, key: string, index: nat, n: nat)
    requires IsTrie(t) && Walking(t, p, key, index)
    requires Scanned(p[t.at[p].start..], key, index, n) && ScanStops(p[t.at[p].start..], key, index, n)
    requires t.at[p].start + n >= |p| && index + n < |key| && key[index + n] in t.at[p].kids
    ensures Walking(t, t.at[p].kids[key[index + n]], key, index + n + 1)
  {
    EffectiveAfterScan(t, p, key, index, n);
    var c := key[index + n];
    assert NodeOk(t, p) && KidOk(t, p, c);
    var q := t.at[p].kids[c];
    assert NodeOk(t, q);
    assert Way(t, q) == p + [c];
    assert key[index + n..][0] == c && key[index + n..][1..] == key[index + n + 1..];
  }

  /** Where the value goes once the walk has ended at p after n more characters. */
  function Where<V>(t: Trie<V>, p: string, key: string, index: nat, n: nat): string
    requires p in t.at && t.at[p].start <= |p| && index + n <= |key|
  {
    var upper := if t.at[p].start + n < |p| then p[..t.at[p].start + n] else p;
    if index + n == |key| then upper else upper + key[index + n..]
  }

  /** The tree by then: split inside p's fragment, and with a leaf for what is left of the key. */
  function Grown<V>(t: Trie<V>, p: string, key: string, index: nat, n: nat, dflt: V): (r: Trie<V>)
    requires p in t.at && t.at[p].start <= |p| && index + n <= |key|
    ensures Where(t, p, key, index, n) in r.at
  {
    var cut := t.at[p].start + n;
    if cut < |p| then
      if index + n == |key| then Split(t, p, cut, dflt)
      else Leaf(Split(t, p, cut, dflt), p[..cut], Where(t, p, key, index, n), dflt)
    else
      if index + n == |key| then t else Leaf(t, p, Where(t, p, key, index, n), dflt)
  }

  function Ended<V>(t: Trie<V>, p: string, key: string, index: nat, n: nat, value: V, dflt: V): (r: Trie<V>)
    requires p in t.at && t.at[p].start <= |p| && index + n <= |key|
  {
    SetValue(Grown(t, p, key, index, n, dflt), Where(t, p, key, index, n), value)
  }

  /** Wherever the walk ends, the tree is then what PrefixShape.Insert says. */
  lemma WalkEnds<V>(t: Trie<V>, p: string, key: string, index: nat, n: nat, value: V, dflt: V)
    requires IsTrie(t) && Walking(t, p, key, index) && t.at.Keys != {""}
    requires Scanned(p[t.at[p].start..], key, index, n) && ScanStops(p[t.at[p].start..], key, index, n)
    requires t.at[p].start + n >= |p| && index + n < |key| ==> key[index + n] !in t.at[p].kids
    ensures Values(Ended(t, p, key, index, n, value, dflt)) == Insert(Values(t), key, value, dflt)
  {
    hide Values, Put, IsTrie, Effective;
    EffectiveAfterScan(t, p, key, index, n);
    if t.at[p].start + n < |p| {
      WalkEndsInside(t, p, key, index, n, value, dflt);
    } else {
      WalkEndsAtNode(t, p, key, index, n, value, dflt);
    }
  }

  lemma WalkEndsInside<V>(t: Trie<V>, p: string, key: string, index: nat, n: nat, value: V, dflt: V)
    requires IsTrie(t) && p in t.at && t.at[p].start + n < |p| && index + n <= |key|
    requires ScanStops(p[t.at[p].start..], key, index, n)
    ensures Values(Ended(t, p, key, index, n, value, dflt)) ==
            Put(Values(t), p[..t.at[p].start + n] + key[index + n..], value, dflt)
  {
    hide Values, Put, IsTrie, Split, Leaf, SetValue;
    var r, cut := key[index + n..], t.at[p].start + n;
    if r == "" {
      assert p[..cut] + r == p[..cut];
      PutInsideEdge(t, p, cut, value, dflt);
    } else {
      assert (p[..cut] + r)[cut] == r[0] == key[index + n];
      assert (p[..cut] + r)[..cut] == p[..cut];
      PutBesideEdge(t, p, cut, p[..cut] + r, value, dflt);
    }
  }

  lemma WalkEndsAtNode<V>(t: Trie<V>, p: string, key: string, index: nat, n: nat, value: V, dflt: V)
    requires IsTrie(t) && p in t.at && t.at[p].start <= |p| <= t.at[p].start + n <= |p| + 1 && index + n <= |key|
    requires index + n < |key| ==> key[index + n] !in t.at[p].kids
    ensures Values(Ended(t, p, key, index, n, value, dflt)) ==
            Put(Values(t), AfterNode(t.at.Keys, p, key[index + n..]), value, dflt)
  {
    hide Values, Put, IsTrie, Split, Leaf, SetValue, Effective;
    var r := key[index + n..];
    if r == "" {
      PutAtNode(t, p, value, dflt);
    } else {
      assert r[0] == key[index + n];
      EffectiveBelowNode(t, p, r);
      assert (p + r)[|p|] == r[0];
      PutBelowNode(t, p, p + r, value, dflt);
    }
  }

  /** The first insert: the unused root takes the whole key. */
  lemma InsertFirst<V>(t: Trie<V>, key: string, value: V, dflt: V)
    requires t.at.Keys == {""}
    ensures Values(SetValue(Trie(key, map[key := Entry(t.at[""].value, 0, map[])]), key, value)) ==
            Insert(Values(t), key, value, dflt)
  {
  }

  // The walk of search.

  /** The search has come in at p with the key read up to index; parent is the node above, if any. */
  ghost predicate Searching<V>(t: Trie<V>, p: string, key: string, index: nat) {
    p in t.at && t.at[p].start == index && index <= |p| && index <= |key| && Way(t, p) == key[..index]
  }

  lemma SearchStarts<V>(t: Trie<V>, key: string)
    requires IsTrie(t)
    ensures Searching(t, t.root, key, 0)
  {
    assert NodeOk(t, t.root);
  }

  /** What the scanner has found of p's fragment: n characters agree, then they differ or one ends. */
  ghost predicate Matched(fragment: string, key: string, start: nat, n: nat) {
    && n <= |fragment| && start + n <= |key| && fragment[..n] == key[start..start + n]
    && (n < |fragment| && start + n < |key| ==> fragment[n] != key[start + n])
  }

  /** The answer when the search stops at p. */
  lemma SearchEnds<V>(t: Trie<V>, p: string, key: string, start: nat, n: nat, before: string, dflt: V)
    requires IsTrie(t) && Searching(t, p, key, start) && Matched(p[start..], key, start, n)
    ensures n < |p| - start && start == 0 ==> SearchAnswer(Values(t), dflt, key, before, Found(dflt, before))
    ensures n < |p| - start && start > 0 ==>
              (Up(t, p) in t.at &&
               SearchAnswer(Values(t), dflt, key, before, Found(t.at[Up(t, p)].value, key[start - 1..])))
    ensures n == |p| - start && (start + n < |key| ==> key[start + n] !in t.at[p].kids) ==>
              SearchAnswer(Values(t), dflt, key, before,
                           Found(t.at[p].value, if start + n == |key| then before else key[start + n..]))
  {
    hide Values, SearchAnswer, IsTrie;
    ScanIsPrefix(t, p, key, start, n);
    if n < |p| - start {
      AnswerAboveEdge(t, p, key, before, dflt);
    } else if start + n < |key| ==> key[start + n] !in t.at[p].kids {
      AnswerAtNode(t, p, key, before, dflt);
    }
  }

  /** The search goes on into the child for the next character. */
  lemma SearchDescends<V>(t: Trie<V>, p: string, key: string, start: nat, n: nat)
    requires IsTrie(t) && Searching(t, p, key, start) && Matched(p[start..], key, start, n)
    requires n == |p| - start && start + n < |key| && key[start + n] in t.at[p].kids
    ensures var q := t.at[p].kids[key[start + n]];
            Searching(t, q, key, start + n + 1) && Up(t, q) == p
  {
    ScanIsPrefix(t, p, key, start, n);
    WayOfKid(t, p, key);
  }

  lemma WayOfKid<V>(t: Trie<V>, p: string, key: string)
    requires IsTrie(t) && p in t.at && p < key && key[|p|] in t.at[p].kids
    ensures var q := t.at[p].kids[key[|p|]];
            q in t.at && t.at[q].start == |p| + 1 <= |q| && Way(t, q) == key[..|p| + 1] && Up(t, q) == p
  {
    assert NodeOk(t, p) && KidOk(t, p, key[|p|]);
    KidNamesParent(t, p, key[|p|]);
    var q := t.at[p].kids[key[|p|]];
    assert NodeOk(t, q);
    assert Way(t, q) == p + [key[|p|]] == key[..|p| + 1];
  }

  /** Matched to the end, p lies on the way of the key; matched only in part, it does not. */
  lemma ScanIsPrefix<V>(t: Trie<V>, p: string, key: string, start: nat, n: nat)
    requires p in t.at && t.at[p].start <= |p| && start <= |key| && Way(t, p) == key[..start]
    requires n <= |p| - start && start + n <= |key|
    requires p[start..][..n] == key[start..start + n]
    requires n < |p| - start && start + n < |key| ==> p[start..][n] != key[start + n]
    ensures p <= key <==> n == |p| - start
    ensures n == |p| - start ==> |p| == start + n
  {
    assert p[..start + n] == p[..start] + p[start..][..n] == key[..start + n];
    if n < |p| - start {
      assert start + n < |key| ==> p[start + n] != key[start + n];
    }
  }

  lemma AnswerAtNode<V>(t: Trie<V>, p: string, key: string, before: string, dflt: V)
    requires IsTrie(t) && p in t.at && p <= key && (p != key ==> key[|p|] !in t.at[p].kids)
    ensures SearchAnswer(Values(t), dflt, key, before, Found(t.at[p].value, if p == key then before else key[|p|..]))
  {
    DeepestAtNode(t, p, key);
    assert Values(t)[p] == t.at[p].value;
  }

  lemma AnswerAboveEdge<V>(t: Trie<V>, p: string, key: string, before: string, dflt: V)
    requires IsTrie(t) && p in t.at && t.at[p].start <= |p| && Way(t, p) <= key && !(p <= key)
    ensures t.at[p].start == 0 ==> SearchAnswer(Values(t), dflt, key, before, Found(dflt, before))
    ensures t.at[p].start > 0 ==>
              (Up(t, p) in t.at &&
               SearchAnswer(Values(t), dflt, key, before, Found(t.at[Up(t, p)].value, key[t.at[p].start - 1..])))
  {
    forall q | q in t.at && q <= key ensures |q| < t.at[p].start {
      DeepestAboveEdge(t, p, key, q);
    }
    assert NodeOk(t, p);
    if t.at[p].start > 0 {
      var up := Up(t, p);
      assert up == Way(t, p)[..|up|];
      assert IsDeepest(t.at.Keys, key, up);
      assert Values(t)[up] == t.at[up].value;
    }
  }

  // The paths and values leave no freedom: fragments and children follow from them.

  /** The parent is the nearest node above. */
  lemma NearestAbove<V>(t: Trie<V>, p: string, q: string)
    requires IsTrie(t) && p in t.at && q in t.at && q < p
    ensures |q| < t.at[p].start
  {
    assert NodeOk(t, p) && NodeOk(t, q);
    if t.at[p].start <= |q| {
      Nested(Way(t, p), q, p);
      Funnel(t, p, q);
    }
  }

  lemma SameStarts<V>(t: Trie<V>, u: Trie<V>, p: string)
    requires IsTrie(t) && IsTrie(u) && t.at.Keys == u.at.Keys && p in t.at
    ensures t.at[p].start <= u.at[p].start
  {
    assert NodeOk(t, p);
    if t.at[p].start > 0 {
      assert Up(t, p) in t.at.Keys;
      NearestAbove(u, p, Up(t, p));
    }
  }

  lemma SameKids<V>(t: Trie<V>, u: Trie<V>, p: string, c: char)
    requires IsTrie(t) && IsTrie(u) && t.at.Keys == u.at.Keys && p in t.at && c in t.at[p].kids
    ensures c in u.at[p].kids && u.at[p].kids[c] == t.at[p].kids[c]
  {
    assert NodeOk(t, p) && KidOk(t, p, c);
    var q := t.at[p].kids[c];
    assert q in u.at.Keys;
    KidNamesParent(t, p, c);
    SameStarts(t, u, q);
    SameStarts(u, t, q);
    assert NodeOk(u, q);
    assert Up(u, q) == Up(t, q);
  }

  /** Two trees with the same paths and values have the same fragments and the same children everywhere. */
  lemma ShapeDeterminesTrie<V>(t: Trie<V>, u: Trie<V>)
    requires IsTrie(t) && IsTrie(u) && Values(t) == Values(u)
    ensures t == u
  {
    assert t.at.Keys == Values(t).Keys == Values(u).Keys == u.at.Keys;
    forall p | p in t.at ensures t.at[p] == u.at[p] {
      assert p in u.at.Keys;
      SameStarts(t, u, p);
      SameStarts(u, t, p);
      assert Values(t)[p] == t.at[p].value && Values(u)[p] == u.at[p].value;
      forall c ensures c in t.at[p].kids ==> c in u.at[p].kids && u.at[p].kids[c] == t.at[p].kids[c] {
        if c in t.at[p].kids { SameKids(t, u, p, c); }
      }
      forall c ensures c in u.at[p].kids ==> c in t.at[p].kids && u.at[p].kids[c] == t.at[p].kids[c] {
        if c in u.at[p].kids { SameKids(u, t, p, c); }
      }
      assert t.at[p].kids == u.at[p].kids;
    }
    assert t.root in u.at.Keys;
    SameStarts(u, t, t.root);
    assert NodeOk(u, t.root);
  }
}
