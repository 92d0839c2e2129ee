/**
  What the decoder cannot read. Row 5 of the repository's table has the code of row 6, so the code that Appendix B
  of RFC 7541 gives to byte 6 belongs to no row: the tree lacks this one leaf and nothing else.
 */
module HuffmanMissing {
  import opened Options
  import opened Bits
  import opened HuffmanCode
  import opened HuffmanTable

  const SPARE: Code := Code(0xfffffe6, 28)

  function Missing(): (b: BitString)
    ensures |b| == 28
  {
    BitsOf(SPARE.code, SPARE.len)
  }

  // The codes of all lengths are 257 and the different rows 256, so only one code is free.

  predicate InRange(c: Code) {
    5 <= c.len <= 30 && 2 * Limit(c.len - 1) <= c.code < Limit(c.len)
  }

  /** The first m codes of length n. */
  function FirstCodes(n: nat, m: nat): set<Code>
    requires n > 0
  {
    if m == 0 then {} else FirstCodes(n, m - 1) + {Code(2 * Limit(n - 1) + m - 1, n)}
  }

  lemma {:induction false} FirstCodesAre(n: nat, m: nat)
    requires n > 0
    ensures |FirstCodes(n, m)| == m
    ensures forall c :: c in FirstCodes(n, m) <==> c.len == n && 2 * Limit(n - 1) <= c.code < 2 * Limit(n - 1) + m
  {
    hide Limit;
    if m > 0 {
      FirstCodesAre(n, m - 1);
    }
  }

  /** The codes of length n and shorter. */
  function Codes(n: nat): set<Code> {
    if n < 5 then {} else Codes(n - 1) + FirstCodes(n, Free(n))
  }

  function Free(n: nat): nat
    requires n >= 5
  {
    if Limit(n) >= 2 * Limit(n - 1) then Limit(n) - 2 * Limit(n - 1) else 0
  }

  function CodeCount(n: nat): nat {
    if n < 5 then 0 else CodeCount(n - 1) + Free(n)
  }

  lemma {:induction false} CodesAre(n: nat)
    requires n <= 30
    ensures |Codes(n)| == CodeCount(n)
    ensures forall c :: c in Codes(n) <==> InRange(c) && c.len <= n
  {
    hide InRange, FirstCodes, Limit, Free;
    forall c ensures InRange(c) ==> 5 <= c.len {
      InRangeLength(c);
    }
    if n >= 5 {
      CodesAre(n - 1);
      CodesOfLength(n);
      DisjointSize(Codes(n - 1), FirstCodes(n, Free(n)));
    }
  }

  lemma CodesOfLength(n: nat)
    requires 5 <= n <= 30
    ensures |FirstCodes(n, Free(n))| == Free(n)
    ensures forall c :: c in FirstCodes(n, Free(n)) <==> InRange(c) && c.len == n
  {
    LimitGrows(n);
    hide Limit, FirstCodes;
    FirstCodesAre(n, Free(n));
  }

  lemma DisjointSize<T>(a: set<T>, b: set<T>)
    requires a !! b
    ensures |a + b| == |a| + |b|
  {
  }

  lemma CountOfCodes()
    ensures CodeCount(30) == 257
  {
    assert CodeCount(10) == 79;
    assert CodeCount(15) == 95;
    assert CodeCount(20) == 106;
    assert CodeCount(25) == 190;
  }

  /** The codes of the rows before m, row 5 left out. */
  function RowSet(m: nat): set<Code>
    requires m <= EOS + 1
  {
    if m == 0 then {} else if m == 6 then RowSet(5) else RowSet(m - 1) + {Row(m - 1)}
  }

  lemma {:induction false} RowSetIs(m: nat)
    requires m <= EOS + 1
    ensures |RowSet(m)| == if m <= 5 then m else m - 1
    ensures forall c :: c in RowSet(m) ==> InRange(c) && exists i: nat :: i < m && i != 5 && Row(i) == c
  {
    hide Row, RowOfCode, Limit;
    hide InRange;
    if m > 0 {
      RowSetIs(m - 1);
      if m != 6 {
        RowIsNew(m - 1);
        DisjointSize(RowSet(m - 1), {Row(m - 1)});
      }
    }
  }

  lemma RowIsNew(m: nat)
    requires m <= EOS && m != 5
    ensures InRange(Row(m)) && forall i: nat :: i < m && i != 5 ==> Row(i) != Row(m)
  {
    hide Row, RowOfCode, Limit;
    EveryRowOk(m);
    forall i: nat | i < m && i != 5 ensures Row(i) != Row(m) {
      EveryRowOk(i);
    }
  }

  lemma SpareIsFree(i: nat)
    requires i <= EOS
    ensures InRange(SPARE) && Row(i) != SPARE
  {
    EveryRowOk(i);
    FirstRow();
    hide Row;
  }

  lemma FirstRow()
    ensures Row(0).len == 13
  {
    assert Row(0) == LINE0[0];
  }

  lemma {:induction false} SameSize<T>(a: set<T>, b: set<T>)
    requires a <= b && |a| == |b|
    ensures a == b
  {
    if a != {} {
      var x :| x in a;
      SameSize(a - {x}, b - {x});
    }
  }

  /** Every code in the range of its length belongs to a row, but for the spare one. */
  lemma EveryCodeIsUsed(c: Code) returns (i: nat)
    requires InRange(c) && c != SPARE
    ensures i <= EOS && Row(i) == c
  {
    hide Row, RowSet, Codes, CodeCount, InRange;
    CodesAre(30);
    CountOfCodes();
    RowSetIs(EOS + 1);
    InRangeLength(c);
    InRangeLength(SPARE);
    SpareIsFree(0);
    forall j: nat | j <= EOS ensures Row(j) != SPARE {
      SpareIsFree(j);
    }
    forall d | d in RowSet(EOS + 1) ensures d in Codes(30) {
      InRangeLength(d);
    }
    SameSize(RowSet(EOS + 1) + {SPARE}, Codes(30));
    assert c in RowSet(EOS + 1);
    i :| i < EOS + 1 && i != 5 && Row(i) == c;
  }

  lemma InRangeLength(c: Code)
    ensures InRange(c) ==> 5 <= c.len <= 30
  {
  }

  // Every thirty bits begin with a code of the table or with the spare one.

  /** The number of the first n of thirty bits. */
  function Front(v: nat, n: nat): nat
    requires n <= 30
  {
    NoNegativeQuotient(v, Pow2(30 - n));
    v / Pow2(30 - n)
  }

  lemma FrontMore(v: nat, n: nat)
    requires 0 < n <= 30
    ensures 2 * Front(v, n - 1) <= Front(v, n)
  {
    hide Pow2;
    Pow2Next(30 - n);
    HalfOf(v, Pow2(30 - n), Pow2(30 - (n - 1)));
  }

  lemma HalfOf(v: nat, p: nat, d: nat)
    requires p > 0 && d == 2 * p
    ensures 2 * (v / d) <= v / p
  {
    var q, a := v / d, v / p;
    assert v == d * q + v % d && v == p * a + v % p;
    assert d * q == p * (2 * q);
    MulBound(2 * q - a, p);
  }

  /** The length at which a number of thirty bits lies among the codes. */
  lemma {:induction false} LengthOf(v: nat, n: nat) returns (m: nat)
    requires 4 <= n <= 30 && Front(v, n) < Limit(n)
    ensures 5 <= m <= n && InRange(Code(Front(v, m), m))
  {
    NoShortCodes();
    hide Limit, Front;
    FrontMore(v, n);
    if Front(v, n - 1) < Limit(n - 1) {
      m := LengthOf(v, n - 1);
    } else {
      m := n;
    }
  }

  lemma NoShortCodes()
    ensures Limit(4) == 0 && Limit(3) == 0
  {
  }

  ghost predicate BeginsWithCode(b: BitString) {
    exists i: nat :: i <= EOS && CodeBits(StaticHuffman(), i) <= b
  }

  lemma Complete(b: BitString)
    requires |b| == 30
    ensures BeginsWithCode(b) || Missing() <= b
  {
    hide Pow2, Val, BitsOf, Limit, Row;
    var v := Val(b);
    CodeSpace();
    Pow2Zero();
    var n := LengthOf(v, 30);
    var c := Code(Front(v, n), n);
    HighBits(v, 30, n);
    BitsOfVal(b);
    assert b[..n] == BitsOf(c.code, c.len);
    if c != SPARE {
      var i := EveryCodeIsUsed(c);
      assert CodeBits(StaticHuffman(), i) == b[..n];
    }
  }

  lemma MissingShares()
    ensures CodeBits(StaticHuffman(), 7)[..27] == Missing()[..27] && Row(7).len == 28
  {
    assert Row(7) == LINE0[7] == Code(0xfffffe7, 28);
    hide Row, BitsOf;
    HighBits(0xfffffe7, 28, 27);
    HighBits(0xfffffe6, 28, 27);
    assert Pow2(1) == 2;
  }

  /** The spare code lies on no code's way. */
  lemma MissingIsOffWay()
    ensures !OnWay(StaticHuffman(), Missing())
  {
    hide BitsOf, Limit, Row, RowOfCode, Pow2;
    SpareRange();
    forall i: nat | i <= EOS ensures !(Missing() <= CodeBits(StaticHuffman(), i)) {
      var r := Row(i);
      if Missing() <= CodeBits(StaticHuffman(), i) {
        EveryRowOk(i);
        LimitFits(28);
        LimitFits(r.len);
        PrefixIsShift(SPARE.code, 28, r.code, r.len);
        if r.len > 28 {
          LongerIsBeyond(28, r.len, r.code);
        } else {
          Pow2Zero();
          SpareIsFree(i);
        }
      }
    }
  }

  lemma SpareRange()
    ensures SPARE.code < Limit(28)
  {
  }

  /** Bits that hold no code and not the spare one at their front are on the way to a code. */
  lemma OnWayOrEnds(p: BitString)
    requires !BeginsWithCode(p) && !(Missing() <= p)
    ensures OnWay(StaticHuffman(), p)
  {
    hide BitsOf, Row, Missing;
    var t := StaticHuffman();
    if |p| >= 30 {
      Complete(p[..30]);
      BeginsLonger(p[..30], p);
    } else {
      var w := p + Zeros(30 - |p|);
      Complete(w);
      if BeginsWithCode(w) {
        var i: nat :| i <= EOS && CodeBits(t, i) <= w;
        BothBegin(CodeBits(t, i), p, w);
      } else {
        BothBegin(Missing(), p, w);
        MissingShares();
        assert p == Missing()[..27][..|p|];
        assert p <= CodeBits(t, 7);
      }
    }
  }

  lemma BeginsLonger(a: BitString, b: BitString)
    requires a <= b
    ensures BeginsWithCode(a) ==> BeginsWithCode(b)
    ensures Missing() <= a ==> Missing() <= b
  {
    hide BitsOf, Missing;
    if BeginsWithCode(a) {
      var i: nat :| i <= EOS && CodeBits(StaticHuffman(), i) <= a;
      assert CodeBits(StaticHuffman(), i) <= b;
    }
  }

  lemma BothBegin(a: BitString, b: BitString, w: BitString)
    requires a <= w && b <= w
    ensures a <= b || b <= a
  {
  }

  // The tree.

  /** At an inner node both children are there, but for the one that would hold the spare code. */
  lemma OnlyMissingChild(tree: Tree, q: BitString, x: bool)
    requires IsTreeOf(tree, StaticHuffman()) && q in tree && !IsLeaf(tree, q)
    ensures q + [x] !in tree <==> q + [x] == Missing()
  {
    hide BitsOf, Row, Missing;
    var t := StaticHuffman();
    MissingIsOffWay();
    if q + [x] !in tree {
      assert !OnWay(t, q + [x]);
      if BeginsWithCode(q + [x]) {
        var i: nat :| i <= EOS && CodeBits(t, i) <= q + [x];
        BothBegin(CodeBits(t, i), q, q + [x]);
        if CodeBits(t, i) <= q {
          TableIsGood();
          CodeAtLeafOnly(tree, q, i);
        }
      } else if Missing() <= q + [x] {
        BothBegin(Missing(), q, q + [x]);
        if Missing() <= q {
          NotAbove(t, Missing(), q);
        }
      } else {
        OnWayOrEnds(q + [x]);
      }
    }
  }

  lemma NotAbove(table: seq<Code>, a: BitString, b: BitString)
    requires a <= b && a != [] && !OnWay(table, a)
    ensures !OnWay(table, b)
  {
  }

  lemma CodeAtLeafOnly(tree: Tree, q: BitString, i: nat)
    requires GoodTable(StaticHuffman()) && IsTreeOf(tree, StaticHuffman()) && q in tree && i <= EOS
    requires CodeBits(StaticHuffman(), i) <= q
    ensures IsLeaf(tree, q)
  {
    hide BitsOf, Row;
    var t := StaticHuffman();
    assert q != [];
    assert OnWay(t, q);
    var j: nat :| j < |t| && q <= CodeBits(t, j);
    assert CodeBits(t, i) <= CodeBits(t, j);
    assert q == CodeBits(t, i);
    CodeIsLeaf(tree, t, i);
  }

  // Decoding.

  /** Every way into q leads on from node to node. */
  ghost predicate Inner(tree: Tree, q: BitString) {
    forall n :: 0 < n <= |q| ==> q[..n] in tree && !IsLeaf(tree, q[..n])
  }

  lemma {:induction false} WalkInner(tree: Tree, q: BitString, n: nat, rest: BitString)
    requires n <= |q| && Inner(tree, q)
    ensures Decode(tree, q[..n], q[n..] + rest) == Decode(tree, q, rest)
    decreases |q| - n
  {
    if n == |q| {
      assert q[..n] == q && q[n..] + rest == rest;
    } else {
      var bits := q[n..] + rest;
      assert bits[0] == q[n] && bits[1..] == q[n + 1..] + rest;
      assert q[..n] + [bits[0]] == q[..n + 1];
      WalkInner(tree, q, n + 1, rest);
    }
  }

  lemma WalkAll(tree: Tree, q: BitString, rest: BitString)
    requires Inner(tree, q)
    ensures Decode(tree, [], q + rest) == Decode(tree, q, rest)
  {
    WalkInner(tree, q, 0, rest);
    assert q[..0] == [] && q[0..] == q;
  }

  /** The spare code leads off the tree with its last bit. */
  lemma DecodeMissing(tree: Tree, tail: BitString)
    requires IsTreeOf(tree, StaticHuffman())
    ensures Decode(tree, [], Missing() + tail) == None
  {
    hide BitsOf, Row, Missing;
    var t, q := StaticHuffman(), Missing()[..27];
    MissingShares();
    forall n | 0 < n <= |q| ensures q[..n] in tree && !IsLeaf(tree, q[..n]) {
      WayIsInner(tree, t, 7, n);
      assert q[..n] == CodeBits(t, 7)[..n];
    }
    var rest := [Missing()[27]] + tail;
    assert Missing() + tail == q + rest;
    WalkAll(tree, q, rest);
    MissingIsOffWay();
    assert q + [rest[0]] == Missing();
  }

  /** The end-of-string code ends the decoding. */
  lemma DecodeEos(tree: Tree, rest: BitString)
    requires IsTreeOf(tree, StaticHuffman())
    ensures Decode(tree, [], CodeBits(StaticHuffman(), EOS) + rest) == Some([])
  {
    hide BitsOf, Row;
    var t := StaticHuffman();
    var b := CodeBits(t, EOS);
    RowFits(EOS);
    TableIsGood();
    var n := |b| - 1;
    forall k | 0 < k <= n ensures b[..n][..k] in tree && !IsLeaf(tree, b[..n][..k]) {
      WayIsInner(tree, t, EOS, k);
      assert b[..n][..k] == b[..k];
    }
    WalkAll(tree, b[..n], [b[n]] + rest);
    assert b + rest == b[..n] + ([b[n]] + rest) && b[..n] + [b[n]] == b;
    CodeIsLeaf(tree, t, EOS);
    assert LastRow(t, b) == EOS;
  }

  /** Bits that hold no code and not the spare one at their front end inside the tree. */
  lemma DecodeInside(tree: Tree, bits: BitString)
    requires IsTreeOf(tree, StaticHuffman()) && !BeginsWithCode(bits) && !(Missing() <= bits)
    ensures Decode(tree, [], bits) == Some([])
  {
    hide BitsOf, Row, Missing;
    forall n | 0 < n <= |bits| ensures bits[..n] in tree && !IsLeaf(tree, bits[..n]) {
      BeginsLonger(bits[..n], bits);
      OnWayOrEnds(bits[..n]);
      InsideIsNoLeaf(tree, bits[..n]);
    }
    WalkAll(tree, bits, []);
    assert bits + [] == bits;
  }

  lemma LongerOrBegins(a: BitString, b: BitString)
    requires a <= b
    ensures |a| < |b| || b <= a
  {
  }

  lemma InsideIsNoLeaf(tree: Tree, p: BitString)
    requires IsTreeOf(tree, StaticHuffman()) && p != [] && OnWay(StaticHuffman(), p) && !BeginsWithCode(p)
    ensures !IsLeaf(tree, p)
  {
    hide BitsOf, Row;
    var t := StaticHuffman();
    var i: nat :| i < |t| && p <= CodeBits(t, i);
    LongerOrBegins(p, CodeBits(t, i));
    assert CodeBits(t, i)[..|p|] == p;
    WayIsInner(tree, t, i, |p|);
  }

  lemma {:induction false} EncodeMore(table: seq<Code>, c: Byte, s: seq<Byte>)
    requires |table| == EOS + 1
    ensures Encode(table, [c] + s) == CodeBits(table, c) + Encode(table, s)
  {
    assert |table| == 257;
    hide *;
    EncodeNone(table);
    EncodeLast(table, [c] + s);
    if s == [] {
      assert ([c] + s)[..0] == [];
      assert [] + CodeBits(table, c) == CodeBits(table, c) == CodeBits(table, c) + [];
    } else {
      var front, last := s[..|s| - 1], s[|s| - 1];
      EncodeMore(table, c, front);
      assert ([c] + s)[..|s|] == [c] + front && ([c] + s)[|s|] == last;
      EncodeLast(table, s);
      Regroup(CodeBits(table, c), Encode(table, front), CodeBits(table, last));
    }
  }

  lemma EncodeLast(table: seq<Code>, s: seq<Byte>)
    requires |table| == EOS + 1 && s != []
    ensures Encode(table, s) == Encode(table, s[..|s| - 1]) + CodeBits(table, s[|s| - 1])
  {
  }

  ghost predicate Reaches(bits: BitString, s: seq<Byte>, tail: BitString) {
    bits == Encode(StaticHuffman(), s) + (Missing() + tail)
  }

  lemma {:induction false} FailureReaches(tree: Tree, bits: BitString) returns (s: seq<Byte>, tail: BitString)
    requires IsTreeOf(tree, StaticHuffman()) && Decode(tree, [], bits) == None
    ensures Reaches(bits, s, tail)
    decreases |bits|
  {
    hide BitsOf, Row, Missing, Decode, IsTreeOf, Encode;
    var t := StaticHuffman();
    if BeginsWithCode(bits) {
      var i: nat :| i <= EOS && CodeBits(t, i) <= bits;
      var rest := bits[|CodeBits(t, i)|..];
      assert bits == CodeBits(t, i) + rest;
      RowFits(i);
      if i == EOS {
        DecodeEos(tree, rest);
      } else {
        TableIsGood();
        TableCanon(i);
        DecodeCode(tree, t, i, rest);
        s, tail := FailureReaches(tree, rest);
        EncodeMore(t, i, s);
        Regroup(CodeBits(t, i), Encode(t, s), Missing() + tail);
        s := [i] + s;
      }
    } else if Missing() <= bits {
      s, tail := [], bits[28..];
      assert Encode(t, []) == [] by { EncodeNone(t); }
      assert bits == Missing() + tail && [] + bits == bits;
    } else {
      DecodeInside(tree, bits);
    }
  }

  lemma EncodeNone(table: seq<Code>)
    requires |table| == EOS + 1
    ensures Encode(table, []) == []
  {
  }

  lemma Regroup(a: BitString, b: BitString, c: BitString)
    ensures (a + b) + c == a + (b + c)
  {
  }

  /** Exactly the streams the decoder fails on: those that come, behind whole codes of bytes, to the spare code. */
  lemma DecodeFailsIff(tree: Tree, bits: BitString)
    requires IsTreeOf(tree, StaticHuffman())
    ensures Decode(tree, [], bits) == None <==> exists s, tail :: Reaches(bits, s, tail)
  {
    hide BitsOf, Row, Missing, Decode, IsTreeOf, Encode;
    var t := StaticHuffman();
    if Decode(tree, [], bits) == None {
      var s, tail := FailureReaches(tree, bits);
    }
    if s, tail :| Reaches(bits, s, tail) {
      TableIsGood();
      forall c: Byte ensures LastRow(t, CodeBits(t, c)) != EOS {
        TableCanon(c);
      }
      DecodeEncodeThen(tree, t, s, Missing() + tail);
      DecodeMissing(tree, tail);
    }
  }
}
