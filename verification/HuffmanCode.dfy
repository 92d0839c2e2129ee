/**
  The Huffman code of library/http/lib/hpack.cpp over an arbitrary code table: what the encoder
  writes, what the tree walk reads, and why the second undoes the first.
  Section 5.2 of RFC 7541.
 */
module HuffmanCode {
  import opened Options
  import opened Bits

  /** One row of the code table. */
  datatype Code = Code(code: nat, len: nat)

  const EOS: nat := 256

  function CodeBits(table: seq<Code>, i: nat): (b: BitString)
    requires i < |table|
    ensures |b| == table[i].len
  {
    BitsOf(table[i].code, table[i].len)
  }

  /** No code begins another, codes fit their length, and the end-of-string code is at least eight ones. */
  ghost predicate GoodTable(table: seq<Code>) {
    && |table| == EOS + 1
    && (forall i :: 0 <= i < |table| ==> 1 <= table[i].len && table[i].code < Pow2(table[i].len))
    && (forall i, j {:trigger CodeBits(table, i), CodeBits(table, j)} ::
          0 <= i < |table| && 0 <= j < |table| && CodeBits(table, i) <= CodeBits(table, j) ==>
          CodeBits(table, i) == CodeBits(table, j))
    && table[EOS].len >= 8 && CodeBits(table, EOS) == Ones(table[EOS].len)
  }

  /** The bits of a string, code by code. */
  function Encode(table: seq<Code>, s: seq<Byte>): BitString
    requires |table| == EOS + 1
  {
    if s == [] then [] else Encode(table, s[..|s| - 1]) + CodeBits(table, s[|s| - 1])
  }

  /** A decoding tree: each node's path with the symbol stored there, -1 for none. */
  type Tree = map<BitString, int>

  predicate IsLeaf(tree: Tree, p: BitString) {
    p + [false] !in tree && p + [true] !in tree
  }

  /** The walk over the tree: None when it falls off, otherwise the bytes read up to the end or EOS. */
  function Decode(tree: Tree, at: BitString, bits: BitString): Option<seq<Byte>>
    decreases |bits|
  {
    if bits == [] then Some([])
    else
      var p := at + [bits[0]];
      if p !in tree then None
      else if !IsLeaf(tree, p) then Decode(tree, p, bits[1..])
      else if tree[p] == EOS then Some([])
      else Prepend(tree[p] % 256, Decode(tree, [], bits[1..]))
  }

  function Prepend(c: Byte, r: Option<seq<Byte>>): Option<seq<Byte>> {
    if r.None? then None else Some([c] + r.value)
  }

  /** The last row whose code is p; a later row overwrites an earlier one in the tree. */
  function LastRow(table: seq<Code>, p: BitString): (r: int)
    ensures -1 <= r < |table|
    ensures r >= 0 ==> CodeBits(table, r) == p
    ensures forall i {:trigger CodeBits(table, i)} :: r < i < |table| ==> CodeBits(table, i) != p
  {
    LastRowBelow(table, p, |table|)
  }

  function LastRowBelow(table: seq<Code>, p: BitString, n: nat): (r: int)
    requires n <= |table|
    ensures -1 <= r < n
    ensures r >= 0 ==> CodeBits(table, r) == p
    ensures forall i {:trigger CodeBits(table, i)} :: r < i < n ==> CodeBits(table, i) != p
  {
    if n == 0 then -1 else if CodeBits(table, n - 1) == p then n - 1 else LastRowBelow(table, p, n - 1)
  }

  /** p lies on the way of some code. */
  ghost predicate OnWay(table: seq<Code>, p: BitString) {
    exists i {:trigger CodeBits(table, i)} :: 0 <= i < |table| && p <= CodeBits(table, i)
  }

  /** The tree holds the ways of all codes, each with the last symbol filed there. */
  ghost predicate IsTreeOf(tree: Tree, table: seq<Code>) {
    && (forall p {:trigger OnWay(table, p)} :: p in tree <==> p == [] || OnWay(table, p))
    && (forall p :: p in tree ==> tree[p] == LastRow(table, p))
  }

  lemma CodeIsLeaf(tree: Tree, table: seq<Code>, i: nat)
    requires GoodTable(table) && IsTreeOf(tree, table) && i < |table|
    ensures CodeBits(table, i) in tree && IsLeaf(tree, CodeBits(table, i))
  {
    var b := CodeBits(table, i);
    assert OnWay(table, b);
    NothingBehind(table, i, false);
    NothingBehind(table, i, true);
  }

  lemma NothingBehind(table: seq<Code>, i: nat, x: bool)
    requires GoodTable(table) && i < |table|
    ensures !OnWay(table, CodeBits(table, i) + [x])
  {
    var b := CodeBits(table, i);
    forall j: nat | j < |table| ensures !(b + [x] <= CodeBits(table, j)) {
      Shorter(b, x, CodeBits(table, j));
    }
  }

  lemma Shorter(a: BitString, x: bool, c: BitString)
    ensures a + [x] <= c ==> a <= c && |a| < |c|
  {
  }

  lemma WayIsInner(tree: Tree, table: seq<Code>, i: nat, n: nat)
    requires IsTreeOf(tree, table) && i < |table| && 0 < n < table[i].len
    ensures CodeBits(table, i)[..n] in tree && !IsLeaf(tree, CodeBits(table, i)[..n])
  {
    var b := CodeBits(table, i);
    assert OnWay(table, b[..n]);
    assert OnWay(table, b[..n + 1]);
    assert b[..n + 1] == if b[n] then b[..n] + [true] else b[..n] + [false];
  }

  /** Reading along a code ends at its leaf. */
  lemma {:induction false} DecodeAlong(tree: Tree, table: seq<Code>, i: nat, n: nat, rest: BitString)
    requires IsTreeOf(tree, table) && i < |table| && n < table[i].len
    ensures Decode(tree, [], CodeBits(table, i) + rest) ==
            Decode(tree, CodeBits(table, i)[..n], CodeBits(table, i)[n..] + rest)
  {
    var b := CodeBits(table, i);
    if n == 0 {
      assert b[..0] == [] && b[0..] == b;
    } else {
      DecodeAlong(tree, table, i, n - 1, rest);
      WayIsInner(tree, table, i, n);
      assert b[..n] == b[..n - 1] + [b[n - 1]];
      assert (b[n - 1..] + rest)[1..] == b[n..] + rest;
    }
  }

  /** The byte a code decodes to: that of the last row with the same code. */
  function Canon(table: seq<Code>, c: Byte): Byte
    requires |table| == EOS + 1
  {
    LastRow(table, CodeBits(table, c)) % 256
  }

  lemma DecodeCode(tree: Tree, table: seq<Code>, c: Byte, rest: BitString)
    requires GoodTable(table) && IsTreeOf(tree, table)
    requires LastRow(table, CodeBits(table, c)) != EOS
    ensures Decode(tree, [], CodeBits(table, c) + rest) == Prepend(Canon(table, c), Decode(tree, [], rest))
  {
    var b := CodeBits(table, c);
    var n := |b| - 1;
    DecodeAlong(tree, table, c, n, rest);
    CodeIsLeaf(tree, table, c);
    assert b[..n] + [b[n]] == b && b[n..] == [b[n]];
    assert ([b[n]] + rest)[1..] == rest;
  }

  /** Fewer than eight ones never reach a leaf: the padding decodes to nothing. */
  lemma DecodePadding(tree: Tree, table: seq<Code>, k: nat)
    requires GoodTable(table) && IsTreeOf(tree, table) && k < 8
    ensures Decode(tree, [], Ones(k)) == Some([])
  {
    if k > 0 {
      DecodeInner(tree, table, EOS, 0, k);
      assert CodeBits(table, EOS)[..0] == [] && CodeBits(table, EOS)[0..k] == Ones(k);
    }
  }

  lemma {:induction false} DecodeInner(tree: Tree, table: seq<Code>, i: nat, n: nat, k: nat)
    requires IsTreeOf(tree, table) && i < |table| && n <= k < table[i].len
    ensures Decode(tree, CodeBits(table, i)[..n], CodeBits(table, i)[n..k]) == Some([])
    decreases k - n
  {
    var b := CodeBits(table, i);
    if n < k {
      WayIsInner(tree, table, i, n + 1);
      DecodeInner(tree, table, i, n + 1, k);
      assert b[..n + 1] == b[..n] + [b[n]] && b[n..k][1..] == b[n + 1..k];
    }
  }

  function CanonAll(table: seq<Code>, s: seq<Byte>): seq<Byte>
    requires |table| == EOS + 1
  {
    seq(|s|, i requires 0 <= i < |s| => Canon(table, s[i]))
  }

  /** No byte shares its code with the end-of-string row. */
  ghost predicate EosIsAlone(table: seq<Code>)
    requires |table| == EOS + 1
  {
    forall c: Byte {:trigger CodeBits(table, c)} :: LastRow(table, CodeBits(table, c)) != EOS
  }

  function PrependAll(a: seq<Byte>, r: Option<seq<Byte>>): Option<seq<Byte>> {
    if r.None? then None else Some(a + r.value)
  }

  lemma PrependAllAppend(a: seq<Byte>, c: Byte, r: Option<seq<Byte>>)
    ensures PrependAll(a, Prepend(c, r)) == PrependAll(a + [c], r)
  {
    if r.Some? {
      assert a + ([c] + r.value) == a + [c] + r.value;
    }
  }

  lemma {:induction false} DecodeEncodeThen(tree: Tree, table: seq<Code>, s: seq<Byte>, rest: BitString)
    requires |table| == EOS + 1 && GoodTable(table) && EosIsAlone(table) && IsTreeOf(tree, table)
    ensures Decode(tree, [], Encode(table, s) + rest) == PrependAll(CanonAll(table, s), Decode(tree, [], rest))
    decreases |s|
  {
    hide GoodTable, IsTreeOf, Decode, Prepend, PrependAll;
    if s == [] {
      assert Encode(table, s) + rest == rest;
      PrependNone(Decode(tree, [], rest));
    } else {
      var front, c := s[..|s| - 1], s[|s| - 1];
      assert Encode(table, s) + rest == Encode(table, front) + (CodeBits(table, c) + rest);
      DecodeEncodeThen(tree, table, front, CodeBits(table, c) + rest);
      DecodeCode(tree, table, c, rest);
      assert CanonAll(table, s) == CanonAll(table, front) + [Canon(table, c)];
      PrependAllAppend(CanonAll(table, front), Canon(table, c), Decode(tree, [], rest));
    }
  }

  lemma PrependNone(r: Option<seq<Byte>>)
    ensures PrependAll([], r) == r
  {
    if r.Some? {
      assert [] + r.value == r.value;
    }
  }

  /** Decoding the padded encoding gives the string back, up to bytes that share a code. */
  lemma DecodeEncode(tree: Tree, table: seq<Code>, s: seq<Byte>, k: nat)
    requires GoodTable(table) && EosIsAlone(table) && IsTreeOf(tree, table) && k < 8
    ensures Decode(tree, [], Encode(table, s) + Ones(k)) == Some(CanonAll(table, s))
  {
    DecodePadding(tree, table, k);
    DecodeEncodeThen(tree, table, s, Ones(k));
    assert CanonAll(table, s) + [] == CanonAll(table, s);
  }

  /** Exactly the strings that come back: those whose bytes are each the last row of their code. */
  lemma RoundTripIff(tree: Tree, table: seq<Code>, s: seq<Byte>, k: nat)
    requires GoodTable(table) && EosIsAlone(table) && IsTreeOf(tree, table) && k < 8
    ensures Decode(tree, [], Encode(table, s) + Ones(k)) == Some(s) <==>
            forall i :: 0 <= i < |s| ==> Canon(table, s[i]) == s[i]
  {
    DecodeEncode(tree, table, s, k);
    if CanonAll(table, s) == s {
      forall i | 0 <= i < |s| ensures Canon(table, s[i]) == s[i] {
        assert CanonAll(table, s)[i] == s[i];
      }
    }
  }
}
