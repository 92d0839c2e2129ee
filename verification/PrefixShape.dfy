/**
  The path-compressed tree of core/include/mms/ds/prefixmap.h, seen without pointers.

  A node is named by its path: the characters on the way from the root to it, its own fragment
  included.  The tree is then a map from paths to stored values, and everything else about it
  (who is whose child, which fragment a node carries) follows from the set of paths.
  PrefixMap.dfy shows that the pointer structure is such a tree and that its methods compute
  the functions below.
 */
module PrefixShape {

  const NUL: char := '\0'

  /** The longest common prefix of two strings. */
  function Lcp(a: string, b: string): (r: string)
    ensures r <= a && r <= b
    ensures |r| == |a| || |r| == |b| || a[|r|] != b[|r|]
  {
    if a == "" || b == "" || a[0] != b[0] then "" else [a[0]] + Lcp(a[1..], b[1..])
  }

  lemma {:induction false} LcpUnique(a: string, b: string, e: string)
    requires e <= a && e <= b
    requires |e| == |a| || |e| == |b| || a[|e|] != b[|e|]
    ensures Lcp(a, b) == e && Lcp(b, a) == e
  {
    if e != "" {
      LcpUnique(a[1..], b[1..], e[1..]);
      assert e == [a[0]] + e[1..];
    }
  }

  /** Some node lies at or below the string e. */
  ghost predicate Covers(paths: set<string>, e: string) {
    exists q :: q in paths && e <= q
  }

  /** The longest prefix of key that some node's path begins with: where insertion leaves the tree. */
  ghost function Shared(paths: set<string>, key: string): (s: string)
    requires paths != {}
    ensures s <= key && Covers(paths, s)
    ensures forall e :: e <= key && Covers(paths, e) ==> |e| <= |s|
  {
    SharedUpTo(paths, key, |key|)
  }

  ghost function SharedUpTo(paths: set<string>, key: string, n: nat): (s: string)
    requires paths != {} && n <= |key|
    ensures s <= key && Covers(paths, s)
    ensures forall e :: e <= key && |e| <= n && Covers(paths, e) ==> |e| <= |s|
  {
    var q :| q in paths;
    assert "" <= q;
    if n == 0 || Covers(paths, key[..n]) then key[..n]
    else
      assert forall e :: e <= key && |e| == n ==> e == key[..n];
      SharedUpTo(paths, key, n - 1)
  }

  lemma SharedUnique(paths: set<string>, key: string, s: string)
    requires s <= key && Covers(paths, s)
    requires |s| < |key| ==> !Covers(paths, key[..|s| + 1])
    ensures Shared(paths, key) == s
  {
    var t := Shared(paths, key);
    var q :| q in paths && t <= q;
    var k := if |s| < |t| then |s| + 1 else |t|;
    assert key[..k] == t[..k] <= q;
    assert s == key[..|s|] && t == key[..|t|];
  }

  /** The value at a path; a path that is no node reads as the default. */
  function Lookup<V>(m: map<string, V>, dflt: V, k: string): V {
    if k in m then m[k] else dflt
  }

  /** The entries a caller can see: nodes whose value is not the default. */
  function Contents<V(==)>(m: map<string, V>, dflt: V): map<string, V> {
    map p | p in m && m[p] != dflt :: m[p]
  }

  /**
    The string under which insert really files a key.  The scanner compares one character past the
    end of a fragment, reads the terminating NUL there, and so drops a NUL of the key that falls
    right behind a node; e is what has been walked so far, r what is left of the key.
   */
  ghost function Effective(paths: set<string>, e: string, r: string): (k: string)
    ensures e <= k && |k| <= |e| + |r|
    decreases |r|
  {
    if r == "" then e
    else if e in paths && r[0] == NUL then
      if |r| == 1 then e else Effective(paths, e + [r[1]], r[2..])
    else if Covers(paths, e + [r[0]]) then Effective(paths, e + [r[0]], r[1..])
    else e + r
  }

  /** No node is followed by a NUL in the key. */
  ghost predicate NoDroppedNul(paths: set<string>, key: string) {
    forall p :: p in paths ==> !(p + [NUL] <= key)
  }

  lemma {:induction false} EffectiveIsKeyFrom(paths: set<string>, e: string, r: string)
    requires NoDroppedNul(paths, e + r)
    ensures Effective(paths, e, r) == e + r
    decreases |r|
  {
    if r == "" {
      assert e + r == e;
    } else {
      assert e + r == (e + [r[0]]) + r[1..];
      assert e + [r[0]] <= e + r;
      if Covers(paths, e + [r[0]]) {
        EffectiveIsKeyFrom(paths, e + [r[0]], r[1..]);
      }
    }
  }

  lemma {:induction false} DroppedNulShortens(paths: set<string>, e: string, r: string, p: string)
    requires p in paths && e <= p && p + [NUL] <= e + r
    ensures |Effective(paths, e, r)| < |e| + |r|
    decreases |r|
  {
    assert e + r == (e + [r[0]]) + r[1..];
    assert (e + r)[|p|] == (p + [NUL])[|p|] == NUL;
    assert p == (e + r)[..|p|];
    if |e| < |p| {
      assert e + [r[0]] == p[..|e| + 1];
      DroppedNulShortens(paths, e + [r[0]], r[1..], p);
    } else {
      assert e == p;
    }
  }

  /** The key is filed under its own name exactly when no node is followed by a NUL in it. */
  lemma EffectiveIsKey(paths: set<string>, key: string)
    ensures Effective(paths, "", key) == key <==> NoDroppedNul(paths, key)
  {
    assert "" + key == key;
    if NoDroppedNul(paths, key) {
      EffectiveIsKeyFrom(paths, "", key);
    } else {
      var p :| p in paths && p + [NUL] <= key;
      DroppedNulShortens(paths, "", key, p);
    }
  }

  lemma NoNulNoDrop(paths: set<string>, key: string)
    requires NUL !in key
    ensures NoDroppedNul(paths, key)
  {
    forall p: string ensures !(p + [NUL] <= key) {
      assert |p| < |key| ==> key[|p|] in key;
      assert (p + [NUL])[|p|] == NUL;
    }
  }

  /** File value under key: split the tree where the key leaves it, then add the key. */
  ghost function Put<V>(m: map<string, V>, key: string, value: V, dflt: V): map<string, V>
    requires m.Keys != {}
  {
    var s := Shared(m.Keys, key);
    (if s in m then m else m[s := dflt])[key := value]
  }

  /** What insert does to the tree.  A tree that is only a root with an empty fragment counts as unused. */
  ghost function Insert<V>(m: map<string, V>, key: string, value: V, dflt: V): (r: map<string, V>)
    requires m.Keys != {}
    ensures r.Keys != {}
  {
    if m.Keys == {""} then
      var r := map[key := value];
      assert key in r;
      r
    else
      var r := Put(m, Effective(m.Keys, "", key), value, dflt);
      assert Effective(m.Keys, "", key) in r;
      r
  }

  /** The tree after an insert reads like the old one with one entry changed. */
  ghost predicate IsUpdate<V>(m: map<string, V>, n: map<string, V>, key: string, value: V, dflt: V) {
    forall x :: Lookup(n, dflt, x) == if x == key then value else Lookup(m, dflt, x)
  }

  /**
    Exactly which inserts are finite-map updates: on an unused tree there must be no value under the
    empty key to lose, on any other tree no NUL of the key may fall right behind a node.
   */
  lemma InsertIsUpdate<V>(m: map<string, V>, key: string, value: V, dflt: V)
    requires m.Keys != {} && value != Lookup(m, dflt, key)
    ensures IsUpdate(m, Insert(m, key, value, dflt), key, value, dflt) <==>
            if m.Keys == {""} then key == "" || m[""] == dflt else NoDroppedNul(m.Keys, key)
  {
    if m.Keys == {""} {
      assert "" in m;
      assert Lookup(Insert(m, key, value, dflt), dflt, "") == if key == "" then value else dflt;
    } else {
      var e := Effective(m.Keys, "", key);
      PutIsUpdate(m, e, value, dflt);
      EffectiveIsKey(m.Keys, key);
      if e != key {
        var p :| p in m.Keys && p + [NUL] <= key;
        DroppedNulShortens(m.Keys, "", key, p);
        assert Lookup(Put(m, e, value, dflt), dflt, key) == Lookup(m, dflt, key);
      }
    }
  }

  lemma PutIsUpdate<V>(m: map<string, V>, key: string, value: V, dflt: V)
    requires m.Keys != {}
    ensures IsUpdate(m, Put(m, key, value, dflt), key, value, dflt)
  {
  }

  // ---------------------------------------------------------------------------------------------
  // Runs of inserts: refinement, canonical shape, and the tree as a function of the map.

  datatype Op<V> = Op(key: string, value: V)

  /** The tree after a run of inserts into an empty prefix map. */
  ghost function RunTree<V>(ops: seq<Op<V>>, dflt: V): (m: map<string, V>)
    ensures m.Keys != {}
  {
    if ops == [] then
      var m := map["" := dflt];
      assert "" in m;
      m
    else
      Insert(RunTree(ops[..|ops| - 1], dflt), ops[|ops| - 1].key, ops[|ops| - 1].value, dflt)
  }

  /** The same run on a plain finite map. */
  function RunMap<V>(ops: seq<Op<V>>): map<string, V> {
    if ops == [] then map[] else RunMap(ops[..|ops| - 1])[ops[|ops| - 1].key := ops[|ops| - 1].value]
  }

  /** Keys without NUL, values that can be told from an unset node, and a first key that is not empty. */
  ghost predicate InDomain<V>(ops: seq<Op<V>>, dflt: V) {
    && (forall i :: 0 <= i < |ops| ==> NUL !in ops[i].key && ops[i].value != dflt)
    && (|ops| > 0 ==> ops[0].key != "")
  }

  /** p is a longest common prefix of two of the keys (possibly of one key with itself). */
  ghost predicate IsMeet(keys: set<string>, p: string) {
    exists a, b {:trigger Lcp(a, b)} :: a in keys && b in keys && p == Lcp(a, b)
  }

  /** The paths are exactly the keys and their pairwise longest common prefixes. */
  ghost predicate IsClosure(paths: set<string>, keys: set<string>) {
    forall p {:trigger IsMeet(keys, p)} :: p in paths <==> IsMeet(keys, p)
  }

  lemma KeyIsPath(paths: set<string>, keys: set<string>, a: string)
    requires IsClosure(paths, keys) && a in keys
    ensures a in paths
  {
    LcpUnique(a, a, a);
    assert IsMeet(keys, a);
  }

  /** Where a new key leaves the tree is a common prefix of it with an older key. */
  lemma SharedIsLcp(paths: set<string>, keys: set<string>, key: string) returns (a: string)
    requires IsClosure(paths, keys) && paths != {}
    ensures a in keys && Shared(paths, key) == Lcp(a, key)
  {
    var s := Shared(paths, key);
    var q :| q in paths && s <= q;
    a := KeyAbove(paths, keys, q);
    KeyIsPath(paths, keys, a);
    var e := Lcp(a, key);
    hide IsClosure, IsMeet, Shared, Lcp;
    assert Covers(paths, e);
    assert s <= a;
    CommonIsNoLonger(a, key, s);
    SamePrefix(key, e, s);
  }

  lemma CommonIsNoLonger(a: string, b: string, s: string)
    requires s <= a && s <= b
    ensures |s| <= |Lcp(a, b)|
  {
  }

  /** Every node lies on the way to a key. */
  lemma KeyAbove(paths: set<string>, keys: set<string>, q: string) returns (a: string)
    requires IsClosure(paths, keys) && q in paths
    ensures a in keys && q <= a
  {
    assert IsMeet(keys, q);
    var b;
    a, b :| a in keys && b in keys && q == Lcp(a, b);
  }

  /** Of two strings the one that follows the key longer leaves the other where that one leaves the key. */
  lemma LcpThroughKey(a: string, x: string, key: string)
    requires |Lcp(a, key)| < |Lcp(x, key)|
    ensures Lcp(a, x) == Lcp(a, key)
  {
    var e, s := Lcp(a, key), Lcp(x, key);
    assert x[|e|] == s[|e|] == key[|e|];
    assert e == key[..|e|] == s[..|e|] == x[..|e|];
    LcpUnique(a, x, e);
  }

  /** Every common prefix of the new key with an older one is already a node or is the split point. */
  lemma LcpIsNode(paths: set<string>, keys: set<string>, key: string, a: string)
    requires IsClosure(paths, keys) && paths != {} && a in keys
    ensures Lcp(a, key) in paths || Lcp(a, key) == Shared(paths, key)
  {
    var x := SharedIsLcp(paths, keys, key);
    var e := Lcp(a, key);
    KeyIsPath(paths, keys, a);
    assert Covers(paths, e);
    if |e| < |Lcp(x, key)| {
      LcpThroughKey(a, x, key);
      assert IsMeet(keys, e);
    } else {
      SamePrefix(key, e, Lcp(x, key));
    }
  }

  lemma SamePrefix(key: string, a: string, b: string)
    requires a <= key && b <= key && |a| == |b|
    ensures a == b
  {
    assert a == key[..|a|] && b == key[..|b|];
  }

  lemma PutKeepsClosure(paths: set<string>, keys: set<string>, key: string)
    requires IsClosure(paths, keys) && paths != {}
    ensures IsClosure(paths + {Shared(paths, key), key}, keys + {key})
  {
    var s := Shared(paths, key);
    var all := keys + {key};
    LcpUnique(key, key, key);
    forall p | p in paths + {s, key} ensures IsMeet(all, p) {
      var x := SharedIsLcp(paths, keys, key);
      assert Lcp(x, key) == s && x in all && key in all;
      if p in paths {
        assert IsMeet(keys, p);
        var a, b :| a in keys && b in keys && p == Lcp(a, b);
        assert a in all && b in all;
      }
    }
    forall p | IsMeet(all, p) ensures p in paths + {s, key} {
      var a, b :| a in all && b in all && p == Lcp(a, b);
      LcpUnique(a, b, p);
      if a in keys && b in keys {
        assert IsMeet(keys, p);
      } else if a in keys {
        LcpIsNode(paths, keys, key, a);
      } else if b in keys {
        LcpIsNode(paths, keys, key, b);
      }
    }
  }

  /** The tree files exactly these entries and has no more nodes than they need. */
  ghost predicate Canonical<V>(m: map<string, V>, dflt: V, entries: map<string, V>) {
    && Contents(m, dflt) == entries && entries.Keys != {}
    && IsClosure(m.Keys, entries.Keys) && m.Keys != {""}
    && |m| <= 2 * |entries| - 1
  }

  /** One put adds at most two nodes for a new key and none for a key it already holds. */
  lemma PutGrowth<V>(m: map<string, V>, key: string, value: V, dflt: V)
    requires m.Keys != {}
    ensures Put(m, key, value, dflt).Keys == m.Keys + {Shared(m.Keys, key), key}
    ensures |Put(m, key, value, dflt)| <= |m| + 2
    ensures key in m ==> |Put(m, key, value, dflt)| == |m|
  {
    var s, n := Shared(m.Keys, key), Put(m, key, value, dflt);
    assert |m| == |m.Keys| && |n| == |n.Keys|;
    var extra := {s, key} - m.Keys;
    assert n.Keys == m.Keys + extra;
    SubsetSize(extra, {s, key});
    if key in m {
      assert Covers(m.Keys, key);
      assert Shared(m.Keys, key) == key by { SamePrefix(key, s, key); }
      assert extra == {};
    }
  }

  lemma PutContents<V>(m: map<string, V>, key: string, value: V, dflt: V, entries: map<string, V>)
    requires m.Keys != {} && value != dflt && Contents(m, dflt) == entries
    ensures Contents(Put(m, key, value, dflt), dflt) == entries[key := value]
  {
  }

  lemma InsertPreservesCanonical<V>(m: map<string, V>, key: string, value: V, dflt: V, entries: map<string, V>)
    requires Canonical(m, dflt, entries) && value != dflt && NUL !in key && m.Keys != {}
    ensures Canonical(Insert(m, key, value, dflt), dflt, entries[key := value])
  {
    hide Put, Insert, Shared, IsClosure, Contents, Effective;
    ContentsOf(m, dflt, entries);
    InsertIsPut(m, key, value, dflt);
    PutContents(m, key, value, dflt, entries);
    PutKeepsClosure(m.Keys, entries.Keys, key);
    PutGrowth(m, key, value, dflt);
    PutSize(m, key, value, dflt, entries);
    assert entries[key := value].Keys == entries.Keys + {key};
    MoreThanRoot(m.Keys, Put(m, key, value, dflt).Keys);
  }

  lemma MoreThanRoot(a: set<string>, b: set<string>)
    requires a <= b && a != {} && a != {""}
    ensures b != {""}
  {
    var z :| z in a && z != "";
    assert z in b;
  }

  lemma InsertIsPut<V>(m: map<string, V>, key: string, value: V, dflt: V)
    requires NUL !in key && m.Keys != {} && m.Keys != {""}
    ensures Insert(m, key, value, dflt) == Put(m, key, value, dflt)
  {
    hide Put;
    NoNulNoDrop(m.Keys, key);
    EffectiveIsKey(m.Keys, key);
  }

  lemma PutSize<V>(m: map<string, V>, key: string, value: V, dflt: V, entries: map<string, V>)
    requires m.Keys != {} && |m| <= 2 * |entries| - 1 && (key in entries ==> key in m)
    ensures |Put(m, key, value, dflt)| <= 2 * |entries[key := value]| - 1
  {
    PutGrowth(m, key, value, dflt);
    hide Put, Shared;
    assert key in entries ==> entries[key := value].Keys == entries.Keys;
    assert |entries[key := value]| == |entries[key := value].Keys| && |entries| == |entries.Keys|;
    assert key !in entries ==> entries[key := value].Keys == entries.Keys + {key};
  }

  lemma {:induction false} SubsetSize<T>(a: set<T>, b: set<T>)
    requires a <= b
    ensures |a| <= |b|
  {
    if a != {} {
      var x :| x in a;
      SubsetSize(a - {x}, b - {x});
    }
  }

  lemma OneEntry<V>(key: string, value: V, dflt: V)
    requires value != dflt && key != ""
    ensures Canonical(map[key := value], dflt, map[key := value])
  {
    var m := map[key := value];
    LcpUnique(key, key, key);
    assert key in m && m.Keys == {key};
  }

  lemma InsertUnused<V>(m: map<string, V>, key: string, value: V, dflt: V)
    requires m.Keys == {""}
    ensures Insert(m, key, value, dflt) == map[key := value]
  {
  }

  lemma FirstInsert<V>(op: Op<V>, dflt: V)
    ensures RunTree([op], dflt) == RunMap([op]) == map[op.key := op.value]
  {
    assert [op][..0] == [];
    assert RunTree<V>([], dflt).Keys == {""};
    InsertUnused(RunTree<V>([], dflt), op.key, op.value, dflt);
  }

  /**
    Refinement over whole runs: the visible entries are those of the plain map, the nodes are exactly
    the pairwise common prefixes of the keys, and k keys need at most 2k - 1 nodes.
   */
  lemma {:induction false} RunRefinesMap<V>(ops: seq<Op<V>>, dflt: V)
    requires InDomain(ops, dflt) && ops != []
    ensures Canonical(RunTree(ops, dflt), dflt, RunMap(ops))
  {
    var front, last := ops[..|ops| - 1], ops[|ops| - 1];
    if front == [] {
      assert ops == [last];
      FirstInsert(last, dflt);
      OneEntry(last.key, last.value, dflt);
    } else {
      assert front[0] == ops[0];
      RunRefinesMap(front, dflt);
      InsertPreservesCanonical(RunTree(front, dflt), last.key, last.value, dflt, RunMap(front));
    }
  }

  /** The tree depends only on the finite map: any two runs that build the same map build the same tree. */
  lemma TreeDeterminedByMap<V>(ops1: seq<Op<V>>, ops2: seq<Op<V>>, dflt: V)
    requires InDomain(ops1, dflt) && InDomain(ops2, dflt)
    requires RunMap(ops1) == RunMap(ops2)
    ensures RunTree(ops1, dflt) == RunTree(ops2, dflt)
  {
    assert ops1 != [] ==> ops1[|ops1| - 1].key in RunMap(ops1);
    assert ops2 != [] ==> ops2[|ops2| - 1].key in RunMap(ops2);
    if ops1 != [] {
      RunRefinesMap(ops1, dflt);
      RunRefinesMap(ops2, dflt);
      SameEntriesSameTree(RunTree(ops1, dflt), RunTree(ops2, dflt), dflt, RunMap(ops1));
    }
  }

  lemma SameEntriesSameTree<V>(a: map<string, V>, b: map<string, V>, dflt: V, entries: map<string, V>)
    requires Canonical(a, dflt, entries) && Canonical(b, dflt, entries)
    ensures a == b
  {
    assert a.Keys == b.Keys by { SameClosure(a.Keys, b.Keys, entries.Keys); }
    SameValues(a, b, dflt);
  }

  lemma SameClosure(p: set<string>, q: set<string>, keys: set<string>)
    requires IsClosure(p, keys) && IsClosure(q, keys)
    ensures p == q
  {
    forall x ensures x in p <==> x in q {
      assert x in p <==> IsMeet(keys, x);
      assert x in q <==> IsMeet(keys, x);
    }
  }

  lemma SameValues<V>(a: map<string, V>, b: map<string, V>, dflt: V)
    requires a.Keys == b.Keys && Contents(a, dflt) == Contents(b, dflt)
    ensures a == b
  {
    forall p | p in a ensures a[p] == b[p] {
      assert p in Contents(a, dflt) <==> p in Contents(b, dflt);
    }
  }

  /** Canonical shape: every node holds an entry or branches at least two ways. */
  lemma EveryNodeEarnsItsPlace<V>(m: map<string, V>, dflt: V, entries: map<string, V>, p: string)
    requires Canonical(m, dflt, entries) && p in m.Keys
    ensures p in entries || Branches(m.Keys, p)
  {
    var keys := entries.Keys;
    assert IsMeet(keys, p);
    var a, b :| a in keys && b in keys && p == Lcp(a, b);
    if p != a && p != b {
      KeyIsPath(m.Keys, keys, a);
      KeyIsPath(m.Keys, keys, b);
      MeetBranches(m.Keys, a, b);
    }
  }

  /** At least two children hang below p. */
  ghost predicate Branches(paths: set<string>, p: string) {
    exists c, d :: c != d && Covers(paths, p + [c]) && Covers(paths, p + [d])
  }

  lemma MeetBranches(paths: set<string>, a: string, b: string)
    requires a in paths && b in paths && Lcp(a, b) != a && Lcp(a, b) != b
    ensures Branches(paths, Lcp(a, b))
  {
    var p := Lcp(a, b);
    assert p + [a[|p|]] <= a && p + [b[|p|]] <= b;
    assert Covers(paths, p + [a[|p|]]) && Covers(paths, p + [b[|p|]]);
  }

  // ---------------------------------------------------------------------------------------------
  // Search.

  datatype Found<V> = Found(value: V, newkey: string)

  /** p is the deepest node on the way of key. */
  ghost predicate IsDeepest(paths: set<string>, key: string, p: string) {
    p in paths && p <= key && forall q :: q in paths && q <= key ==> |q| <= |p|
  }

  /** What search answers: the deepest node's value, and the rest of the key when there is one. */
  ghost predicate SearchAnswer<V>(m: map<string, V>, dflt: V, key: string, before: string, r: Found<V>) {
    if exists p :: IsDeepest(m.Keys, key, p) then
      exists p :: IsDeepest(m.Keys, key, p) && r.value == m[p] &&
                  r.newkey == if p == key then before else key[|p|..]
    else r == Found(dflt, before)
  }

  lemma DeepestExists(paths: set<string>, key: string, q: string) returns (p: string)
    requires q in paths && q <= key
    ensures IsDeepest(paths, key, p)
    decreases |key| - |q|
  {
    if z :| z in paths && z <= key && |z| > |q| {
      p := DeepestExists(paths, key, z);
    } else {
      p := q;
    }
  }

  /** p is the longest key of the map that is a prefix of the query. */
  ghost predicate IsLongestEntry<V>(entries: map<string, V>, key: string, p: string) {
    p in entries && p <= key && forall q :: q in entries && q <= key ==> |q| <= |p|
  }

  /**
    Two inserted keys part behind p, on the way of the query and at no inserted key: what is common to them
    is a prefix of the query, longer than p.
   */
  ghost predicate IsHidden(keys: set<string>, key: string, p: string) {
    exists a, b {:trigger Lcp(a, b)} ::
      a in keys && b in keys && Lcp(a, b) !in keys && Lcp(a, b) <= key && |Lcp(a, b)| > |p|
  }

  /**
    Search against the finite map, in terms of the inserted keys alone: it answers with the longest inserted
    prefix p of the query exactly if no two keys part behind p on the way; if two do, or if there is no
    inserted prefix, it answers with the default.
   */
  ghost predicate AnswersByKeys<V>(entries: map<string, V>, dflt: V, key: string, before: string, r: Found<V>) {
    && (forall p {:trigger IsLongestEntry(entries, key, p)} :: IsLongestEntry(entries, key, p) ==>
          && (r.value == entries[p] <==> !IsHidden(entries.Keys, key, p))
          && (if IsHidden(entries.Keys, key, p) then r.value == dflt else r.newkey == if p == key then before else key[|p|..]))
    && ((forall p :: !IsLongestEntry(entries, key, p)) ==> r.value == dflt)
  }

  lemma DeepestIsUnique(paths: set<string>, key: string, p: string, q: string)
    requires IsDeepest(paths, key, p) && IsDeepest(paths, key, q)
    ensures p == q
  {
    SamePrefix(key, p, q);
  }

  /** A node without an entry that lies deeper than p on the way of the query is where two keys part, and the other way round. */
  lemma HiddenIff<V>(m: map<string, V>, dflt: V, entries: map<string, V>, key: string, p: string, q: string)
    requires Canonical(m, dflt, entries) && IsLongestEntry(entries, key, p) && IsDeepest(m.Keys, key, q)
    ensures IsHidden(entries.Keys, key, p) <==> q != p
    ensures q != p ==> q !in entries
  {
    var keys := entries.Keys;
    KeyIsPath(m.Keys, keys, p);
    if q != p {
      assert |q| > |p| by { if |q| == |p| { SamePrefix(key, p, q); } }
      assert IsMeet(keys, q);
      var a, b :| a in keys && b in keys && q == Lcp(a, b);
      assert Lcp(a, b) !in keys;
    } else if IsHidden(keys, key, p) {
      var a, b :| a in keys && b in keys && Lcp(a, b) !in keys && Lcp(a, b) <= key && |Lcp(a, b)| > |p|;
      assert IsMeet(keys, Lcp(a, b));
    }
  }

  lemma SearchByKeys<V>(m: map<string, V>, dflt: V, entries: map<string, V>, key: string, before: string, r: Found<V>)
    requires Canonical(m, dflt, entries) && SearchAnswer(m, dflt, key, before, r)
    ensures AnswersByKeys(entries, dflt, key, before, r)
  {
    hide Canonical;
    ContentsOf(m, dflt, entries);
    if exists q :: IsDeepest(m.Keys, key, q) {
      var q :| IsDeepest(m.Keys, key, q) && r.value == m[q] && r.newkey == if q == key then before else key[|q|..];
      forall p | IsLongestEntry(entries, key, p)
        ensures IsHidden(entries.Keys, key, p) <==> q != p
        ensures q != p ==> q !in entries
      {
        HiddenIff(m, dflt, entries, key, p, q);
      }
      if q in entries {
        var p := DeepestExists(entries.Keys, key, q);
        assert IsLongestEntry(entries, key, p);
      }
    } else {
      forall p ensures !IsLongestEntry(entries, key, p) {
        if IsLongestEntry(entries, key, p) {
          var q := DeepestExists(m.Keys, key, p);
        }
      }
    }
  }

  /** The entries are the nodes with a value. */
  lemma ContentsOf<V>(m: map<string, V>, dflt: V, entries: map<string, V>)
    requires Canonical(m, dflt, entries)
    ensures forall p :: p in entries ==> p in m && entries[p] == m[p] && m[p] != dflt
    ensures forall p :: p in m && p !in entries ==> m[p] == dflt
  {
  }

  /** What a caller gets from search after any run of inserts, told from the keys and values that were inserted. */
  lemma SearchAfterRun<V>(ops: seq<Op<V>>, dflt: V, key: string, before: string, r: Found<V>)
    requires InDomain(ops, dflt) && SearchAnswer(RunTree(ops, dflt), dflt, key, before, r)
    ensures AnswersByKeys(RunMap(ops), dflt, key, before, r)
  {
    if ops == [] {
      assert RunTree(ops, dflt) == map["" := dflt];
      assert forall p :: !IsLongestEntry(RunMap(ops), key, p);
    } else {
      RunRefinesMap(ops, dflt);
      SearchByKeys(RunTree(ops, dflt), dflt, RunMap(ops), key, before, r);
    }
  }

  // Runs of two and three inserts.

  lemma RunMore<V>(ops: seq<Op<V>>, op: Op<V>, dflt: V)
    ensures RunTree(ops + [op], dflt) == Insert(RunTree(ops, dflt), op.key, op.value, dflt)
    ensures RunMap(ops + [op]) == RunMap(ops)[op.key := op.value]
  {
    assert (ops + [op])[..|ops|] == ops;
  }

  /** Behind "ab", where "abc" and "abd" part, the entry under "a" is not found any more. */
  lemma PartingKeysHideEntries<V>(v: V, w: V, u: V, dflt: V, before: string, r: Found<V>)
    requires v != dflt && w != dflt && u != dflt
    requires SearchAnswer(RunTree([Op("a", v), Op("abc", w), Op("abd", u)], dflt), dflt, "abx", before, r)
    ensures IsLongestEntry(RunMap([Op("a", v), Op("abc", w), Op("abd", u)]), "abx", "a")
    ensures r.value == dflt
  {
    hide RunTree, RunMap, SearchAnswer, IsHidden, IsLongestEntry, Insert;
    var a, b, c := Op("a", v), Op("abc", w), Op("abd", u);
    ThreeEntries(a, b, c, dflt);
    LongestIsA(RunMap([a, b, c]));
    SearchAfterRun([a, b, c], dflt, "abx", before, r);
    LcpUnique("abc", "abd", "ab");
    HiddenBy(RunMap([a, b, c]).Keys, "abx", "a", "abc", "abd");
  }

  lemma ThreeEntries<V>(a: Op<V>, b: Op<V>, c: Op<V>, dflt: V)
    ensures RunMap([a, b, c]) == map[][a.key := a.value][b.key := b.value][c.key := c.value]
  {
    hide RunTree, RunMap, Insert;
    assert [a] == [] + [a] && [a, b] == [a] + [b] && [a, b, c] == [a, b] + [c];
    RunOfNone(dflt);
    RunMore([], a, dflt);
    RunMore([a], b, dflt);
    RunMore([a, b], c, dflt);
  }

  lemma LongestIsA<V>(entries: map<string, V>)
    requires entries.Keys == {"a", "abc", "abd"}
    ensures IsLongestEntry(entries, "abx", "a")
  {
    assert !("abc" <= "abx") by { assert "abc"[2] != "abx"[2]; }
    assert !("abd" <= "abx") by { assert "abd"[2] != "abx"[2]; }
    assert "a" in entries;
  }

  lemma RunOfNone<V>(dflt: V)
    ensures RunMap<V>([]) == map[] && RunTree<V>([], dflt) == map["" := dflt]
  {
  }

  lemma HiddenBy(keys: set<string>, key: string, p: string, a: string, b: string)
    requires a in keys && b in keys && Lcp(a, b) !in keys && Lcp(a, b) <= key && |Lcp(a, b)| > |p|
    ensures IsHidden(keys, key, p)
  {
  }

  /** An entry under the empty key does not survive the next insert if it was the first. */
  lemma EmptyFirstKeyIsLost<V>(v: V, key: string, w: V, dflt: V)
    ensures RunTree([Op("", v), Op(key, w)], dflt) == map[key := w]
  {
    hide *;
    var a, b := Op("", v), Op(key, w);
    FirstInsert(a, dflt);
    assert [a, b] == [a] + [b];
    RunMore([a], b, dflt);
    InsertUnused(RunTree([a], dflt), key, w, dflt);
  }

  /** A NUL right behind a node is dropped: the key is filed without it. */
  lemma NulIsDropped<V>(v: V, w: V, dflt: V)
    ensures RunTree([Op("a", v), Op("a\0b", w)], dflt) == map["a" := v, "ab" := w]
  {
    hide *;
    var a, b := Op("a", v), Op("a\0b", w);
    FirstInsert(a, dflt);
    assert [a, b] == [a] + [b];
    RunMore([a], b, dflt);
    InsertDropsNul(RunTree([a], dflt), w, dflt);
  }

  lemma InsertDropsNul<V>(m: map<string, V>, w: V, dflt: V)
    requires m.Keys == {"a"}
    ensures Insert(m, "a\0b", w, dflt) == map["a" := m["a"], "ab" := w]
  {
    hide Effective;
    DropsNul();
    assert Covers({"a"}, "a") && !Covers({"a"}, "ab");
    SharedUnique({"a"}, "ab", "a");
    assert "a" in m;
  }

  lemma DropsNul()
    ensures Effective({"a"}, "", "a\0b") == "ab"
  {
    var paths := {"a"};
    assert Covers(paths, "a");
    assert "" + ['a'] == "a" && "a\0b"[1..] == "\0b" && "\0b"[2..] == "" && "a" + ['b'] == "ab";
    assert "a\0b"[0] == 'a' && "\0b"[0] == NUL && "\0b"[1] == 'b';
    assert "" !in paths;
    assert Effective(paths, "ab", "") == "ab";
    assert Effective(paths, "a", "\0b") == "ab";
  }
}
