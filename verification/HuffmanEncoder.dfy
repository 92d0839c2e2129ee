/**
  add_huffman_string and huffman_string_size of library/http: the bit-by-bit writer and the number
  of bytes it takes.
 */
module HuffmanEncoder {
  import opened Bits
  import opened HuffmanCode

  const MASK: seq<nat> := [0xff, 0x7f, 0x3f, 0x1f, 0x0f, 0x07, 0x03, 0x01]

  /** x & MASK[bitIndex]: the mask is a block of low ones, so the conjunction is a remainder. */
  function Masked(x: nat, bitIndex: nat): nat
    requires bitIndex < 8
  {
    x % (MASK[bitIndex] + 1)
  }

  /** One byte added to another as uint8_t does it. */
  function AddByte(a: Byte, x: nat): Byte {
    (a + x) % 256
  }

  lemma MaskIsLow(x: nat, bitIndex: nat)
    requires bitIndex < 8
    ensures Masked(x, bitIndex) == Low(x, 8 - bitIndex)
  {
    assert Pow2(4) == 16;
    assert Pow2(8) == 256 && Pow2(7) == 128 && Pow2(6) == 64 && Pow2(5) == 32;
  }

  lemma ByteBound(b: BitString)
    requires |b| <= 8
    ensures Val(b) < 256
  {
    assert Pow2(4) == 16;
    assert Pow2(8) == 256 && Pow2(7) == 128 && Pow2(6) == 64 && Pow2(5) == 32;
  }

  /** Whole bytes from start to pos, then the byte under construction: the bits of partial, then zeros. */
  ghost predicate Written(s: seq<Byte>, start: nat, pos: nat, whole: BitString, partial: BitString) {
    && start <= pos < |s| && |partial| < 8
    && BitsOfBytes(s[start..pos]) == whole && s[pos] == Val(partial + Zeros(8 - |partial|))
  }

  /** Adding bits to the free end of a byte never carries into the bits already there. */
  lemma AddBits(partial: BitString, chunk: BitString, n: nat, m: nat)
    requires |partial| + n == 8 && |chunk| + m == n
    ensures Val(partial + Zeros(n)) + Shl(Val(chunk), m) == Val(partial + chunk + Zeros(m)) < 256
  {
    hide *;
    var k := |chunk|;
    ByteBound(partial + chunk + Zeros(m));
    ValJoin(partial, Zeros(n));
    ValZeros(n);
    ValJoin(partial + chunk, Zeros(m));
    ValZeros(m);
    ValJoin(partial, chunk);
    ShlSum(Shl(Val(partial), k), Val(chunk), m);
    ShlTwice(Val(partial), k, m);
  }

  /** The byte under construction after a chunk of bits is added to it. */
  lemma AddedByte(a: Byte, partial: BitString, chunk: BitString, n: nat, m: nat)
    requires |partial| + n == 8 && |chunk| + m == n && a == Val(partial + Zeros(n))
    ensures AddByte(a, Shl(Val(chunk), m)) == Val(partial + chunk + Zeros(m))
  {
    hide Shl, Val, Zeros;
    AddBits(partial, chunk, n, m);
  }

  /** The byte under construction becomes whole. */
  lemma FullByte(s: seq<Byte>, start: nat, pos: nat, b: BitString)
    requires start <= pos < |s| && |b| == 8 && Val(b) < 256
    ensures BitsOfBytes(s[pos := Val(b)][start..pos + 1]) == BitsOfBytes(s[start..pos]) + b
  {
    hide Val, BitsOf, BitsOfBytes;
    BitsOfVal(b);
    BitsOfBytesAppend(s[start..pos], Val(b));
    assert s[pos := Val(b)][start..pos + 1] == s[start..pos] + [Val(b)];
  }

  /** A chunk of bits is added to the byte under construction and leaves m bits free. */
  lemma AppendChunk(s: seq<Byte>, start: nat, pos: nat, whole: BitString, partial: BitString, chunk: BitString, m: nat)
    requires Written(s, start, pos, whole, partial) && |partial| + |chunk| + m == 8
    ensures var t := s[pos := AddByte(s[pos], Shl(Val(chunk), m))];
            && (m > 0 ==> Written(t, start, pos, whole, partial + chunk))
            && (m == 0 && pos + 1 < |s| ==> Written(t[pos + 1 := 0], start, pos + 1, whole + (partial + chunk), []))
            && (m == 0 ==> BitsOfBytes(t[start..pos + 1]) == whole + (partial + chunk))
  {
    hide *;
    if m == 0 {
      FillByte(s, start, pos, whole, partial, chunk);
    } else {
      PartOfByte(s, start, pos, whole, partial, chunk, m);
    }
  }

  lemma PartOfByte(s: seq<Byte>, start: nat, pos: nat, whole: BitString, partial: BitString, chunk: BitString, m: nat)
    requires Written(s, start, pos, whole, partial) && |partial| + |chunk| + m == 8 && m > 0
    ensures Written(s[pos := AddByte(s[pos], Shl(Val(chunk), m))], start, pos, whole, partial + chunk)
  {
    hide Val, Shl, BitsOf, AddByte, Zeros, BitsOfBytes;
    AddedByte(s[pos], partial, chunk, 8 - |partial|, m);
    assert s[pos := AddByte(s[pos], Shl(Val(chunk), m))][start..pos] == s[start..pos];
  }

  lemma FillByte(s: seq<Byte>, start: nat, pos: nat, whole: BitString, partial: BitString, chunk: BitString)
    requires Written(s, start, pos, whole, partial) && |partial| + |chunk| == 8
    ensures var t := s[pos := AddByte(s[pos], Shl(Val(chunk), 0))];
            && (pos + 1 < |s| ==> Written(t[pos + 1 := 0], start, pos + 1, whole + (partial + chunk), []))
            && BitsOfBytes(t[start..pos + 1]) == whole + (partial + chunk)
  {
    hide Val, Shl, BitsOf, AddByte, Zeros, BitsOfBytes;
    AddedByte(s[pos], partial, chunk, 8 - |partial|, 0);
    NoZeros(partial + chunk);
    FullByte(s, start, pos, partial + chunk);
    hide Written;
    if pos + 1 < |s| { NextByte(s[pos := AddByte(s[pos], Shl(Val(chunk), 0))], start, pos, whole + (partial + chunk)); }
  }

  lemma NoZeros(b: BitString)
    ensures b + Zeros(0) == b
  {
  }

  /** After a full byte the next one is cleared. */
  lemma NextByte(s: seq<Byte>, start: nat, pos: nat, whole: BitString)
    requires start <= pos < |s| - 1 && BitsOfBytes(s[start..pos + 1]) == whole
    ensures Written(s[pos + 1 := 0], start, pos + 1, whole, [])
  {
    assert s[pos + 1 := 0][start..pos + 1] == s[start..pos + 1];
    assert [] + Zeros(8) == Zeros(8);
    ValZeros(8);
  }

  /** The last code bits, shifted to the free end of the byte, as the source masks them. */
  lemma LastChunk(c: Code, bitIndex: nat, left: nat)
    requires bitIndex < 8 && left <= c.len && bitIndex + left <= 8
    ensures Masked(Shl(c.code, 8 - bitIndex - left), bitIndex) ==
            Shl(Val(BitsOf(c.code, c.len)[c.len - left..c.len]), 8 - bitIndex - left)
  {
    assert Shr(c.code, 0) == c.code;
    hide Shl, Shr, Low, Val, BitsOf, Masked;
    MaskIsLow(Shl(c.code, 8 - bitIndex - left), bitIndex);
    LowShl(c.code, left, 8 - bitIndex - left);
    SliceLow(c.code, c.len, c.len - left, c.len);
  }

  /** The next code bits, shifted down to fill the byte, as the source masks them. */
  lemma NextChunk(c: Code, bitIndex: nat, left: nat)
    requires bitIndex < 8 && left <= c.len && bitIndex + left > 8
    ensures Masked(Shr(c.code, left + bitIndex - 8), bitIndex) ==
            Shl(Val(BitsOf(c.code, c.len)[c.len - left..c.len - left + (8 - bitIndex)]), 0)
  {
    hide Shr, Low, Val, BitsOf, Masked;
    MaskIsLow(Shr(c.code, left + bitIndex - 8), bitIndex);
    SliceLow(c.code, c.len, c.len - left, c.len - left + (8 - bitIndex));
  }

  lemma Extend(whole: BitString, partial: BitString, base: BitString, done: BitString, chunk: BitString)
    requires whole + partial == base + done
    ensures whole + (partial + chunk) == base + (done + chunk)
    ensures whole + (partial + chunk) + [] == base + (done + chunk)
  {
    assert whole + (partial + chunk) == (whole + partial) + chunk;
    assert base + (done + chunk) == (base + done) + chunk;
  }

  /** The byte under construction takes a chunk of bits; if it is full then, the next one is cleared. */
  method PutChunk(x: nat, out: array<Byte>, at: nat, bitIndex: nat,
                  ghost start: nat, ghost whole: BitString, ghost partial: BitString, ghost chunk: BitString, n: nat)
    returns (pos: nat, index: nat, ghost w: BitString, ghost p: BitString)
    requires Written(out[..], start, at, whole, partial) && bitIndex == |partial| < 8 && n == |chunk| && bitIndex + n <= 8
    requires x == Shl(Val(chunk), 8 - bitIndex - n) && 8 * at + bitIndex + n < 8 * out.Length
    modifies out
    ensures Written(out[..], start, pos, w, p) && index == |p| < 8 && w + p == whole + (partial + chunk)
    ensures at <= pos && 8 * pos + index == 8 * at + bitIndex + n
    ensures forall k :: 0 <= k < at || pos < k < out.Length ==> out[k] == old(out[k])
  {
    pos := at;
    ghost var s := out[..];
    hide *;
    AppendChunk(s, start, at, whole, partial, chunk, 8 - bitIndex - n);
    out[at] := AddByte(out[at], x);
    if bitIndex + n == 8 {
      w, p, index := whole + (partial + chunk), [], 0;
      pos := at + 1;
      out[pos] := 0;
      assert out[..] == s[at := AddByte(s[at], x)][pos := 0];
    } else {
      w, p, index := whole, partial + chunk, bitIndex + n;
      assert out[..] == s[at := AddByte(s[at], x)];
    }
  }

  /** One round of the inner loop: fill up the byte under construction, or put all that is left of the code. */
  method PutSome(c: Code, out: array<Byte>, at: nat, bitIndex: nat, left: nat,
                 ghost start: nat, ghost whole: BitString, ghost partial: BitString)
    returns (done: bool, pos: nat, index: nat, rest: nat, ghost w: BitString, ghost p: BitString)
    requires Written(out[..], start, at, whole, partial) && bitIndex == |partial| < 8 && 1 <= left <= c.len
    requires 8 * at + bitIndex + left < 8 * out.Length
    modifies out
    ensures done == (bitIndex + left <= 8) && Written(out[..], start, pos, w, p) && index == |p| < 8
    ensures rest < left && done == (rest == 0) && at <= pos && 8 * pos + index + rest == 8 * at + bitIndex + left
    ensures w + p == whole + (partial + BitsOf(c.code, c.len)[c.len - left..c.len - rest])
    ensures forall k :: 0 <= k < at || pos < k < out.Length ==> out[k] == old(out[k])
  {
    ghost var b := BitsOf(c.code, c.len);
    hide *;
    done := bitIndex + left <= 8;
    if done {
      ghost var chunk := b[c.len - left..c.len];
      LastChunk(c, bitIndex, left);
      pos, index, w, p :=
        PutChunk(Masked(Shl(c.code, 8 - bitIndex - left), bitIndex), out, at, bitIndex, start, whole, partial, chunk, left);
      rest := 0;
    } else {
      ghost var chunk := b[c.len - left..c.len - left + (8 - bitIndex)];
      NextChunk(c, bitIndex, left);
      pos, index, w, p :=
        PutChunk(Masked(Shr(c.code, left + bitIndex - 8), bitIndex), out, at, bitIndex, start, whole, partial, chunk, 8 - bitIndex);
      rest := left - (8 - bitIndex);
    }
  }

  /** The inner loop: one code, however many byte boundaries it straddles. */
  method PutCode(c: Code, out: array<Byte>, at: nat, bitIndex: nat,
                 ghost start: nat, ghost whole: BitString, ghost partial: BitString)
    returns (pos: nat, index: nat, ghost w: BitString, ghost p: BitString)
    requires c.len >= 1 && Written(out[..], start, at, whole, partial) && bitIndex == |partial| < 8
    requires 8 * at + bitIndex + c.len < 8 * out.Length
    modifies out
    ensures at <= pos && index == |p| < 8 && 8 * pos + index == 8 * at + bitIndex + c.len
    ensures Written(out[..], start, pos, w, p) && w + p == whole + partial + BitsOf(c.code, c.len)
    ensures forall k :: 0 <= k < at || pos < k < out.Length ==> out[k] == old(out[k])
  {
    pos, index, w, p := at, bitIndex, whole, partial;
    var left: nat, done := c.len, false;
    ghost var b, base := BitsOf(c.code, c.len), whole + partial;
    assert base + b[..0] == base;
    hide *;
    while !done
      invariant done <==> left == 0
      invariant 0 <= left <= c.len && index == |p| < 8 && at <= pos
      invariant 8 * pos + index + left == 8 * at + bitIndex + c.len
      invariant Written(out[..], start, pos, w, p) && w + p == base + b[..c.len - left]
      invariant forall k :: 0 <= k < at || pos < k < out.Length ==> out[k] == old(out[k])
      decreases left
    {
      ghost var l0, w0, p0 := left, w, p;
      done, pos, index, left, w, p := PutSome(c, out, pos, index, left, start, w, p);
      ghost var chunk := b[c.len - l0..c.len - left];
      assert b[..c.len - l0] + chunk == b[..c.len - left];
      Extend(w0, p0, base, b[..c.len - l0], chunk);
    }
    assert b[..c.len] == b;
  }

  /** huffman_string_size: the number of bytes the encoder will write. */
  method HuffmanStringSize(table: seq<Code>, val: seq<Byte>) returns (bytes: nat)
    requires |table| == EOS + 1
    ensures bytes == (|Encode(table, val)| + 7) / 8
  {
    var size := 7;
    for i := 0 to |val|
      invariant size == 7 + |Encode(table, val[..i])|
    {
      size := size + table[val[i]].len;
      assert val[..i + 1][..i] == val[..i];
    }
    assert val[..|val|] == val;
    bytes := size / 8;
  }

  lemma {:induction false} EncodePrefix(table: seq<Code>, s: seq<Byte>, i: nat)
    requires |table| == EOS + 1 && i <= |s|
    ensures |Encode(table, s[..i])| <= |Encode(table, s)|
    decreases |s| - i
  {
    if i < |s| {
      EncodePrefix(table, s, i + 1);
      assert s[..i + 1][..i] == s[..i];
    } else {
      assert s[..i] == s;
    }
  }

  lemma EncodeNothing(table: seq<Code>, val: seq<Byte>)
    requires |table| == EOS + 1
    ensures Encode(table, val[..0]) == []
  {
  }

  /** The code of the next byte follows, and all of it fits. */
  lemma EncodeMore(table: seq<Code>, val: seq<Byte>, i: nat)
    requires |table| == EOS + 1 && i < |val|
    ensures Encode(table, val[..i + 1]) == Encode(table, val[..i]) + BitsOf(table[val[i]].code, table[val[i]].len)
    ensures |Encode(table, val[..i])| + table[val[i]].len == |Encode(table, val[..i + 1])| <= |Encode(table, val)|
  {
    hide BitsOf;
    assert val[..i + 1][..i] == val[..i];
    EncodePrefix(table, val, i + 1);
  }

  /** The last, unfinished byte is filled up with ones. */
  lemma PadByte(s: seq<Byte>, start: nat, pos: nat, whole: BitString, partial: BitString)
    requires Written(s, start, pos, whole, partial)
    ensures BitsOfBytes(s[pos := AddByte(s[pos], MASK[|partial|])][start..pos + 1]) == whole + (partial + Ones(8 - |partial|))
  {
    var n := 8 - |partial|;
    assert MASK[|partial|] == Shl(Val(Ones(n)), 0) by {
      ValOnes(n);
      assert Pow2(4) == 16;
      assert Pow2(8) == 256 && Pow2(7) == 128 && Pow2(6) == 64 && Pow2(5) == 32;
    }
    hide *;
    AppendChunk(s, start, pos, whole, partial, Ones(n), 0);
  }

  /** add_huffman_string: all codes in a row, then ones up to the byte boundary. */
  method AddHuffmanString(table: seq<Code>, val: seq<Byte>, out: array<Byte>, at: nat) returns (pos: nat)
    requires |table| == EOS + 1 && forall i :: 0 <= i <= EOS ==> table[i].len >= 1
    requires at + |Encode(table, val)| / 8 < out.Length
    modifies out
    ensures pos == at + (|Encode(table, val)| + 7) / 8 <= out.Length
    ensures BitsOfBytes(out[at..pos]) == Encode(table, val) + Ones(8 * (pos - at) - |Encode(table, val)|)
    ensures forall k :: 0 <= k < at || at + |Encode(table, val)| / 8 < k < out.Length ==> out[k] == old(out[k])
  {
    hide *;
    out[at] := 0;
    StartByte(out[..], at);
    var bitIndex;
    ghost var whole, partial;
    pos, bitIndex, whole, partial := PutAll(table, val, out, at);
    pos := Pad(out, at, pos, bitIndex, whole, partial, Encode(table, val));
  }

  /** The outer loop, over the bytes of the string. */
  method PutAll(table: seq<Code>, val: seq<Byte>, out: array<Byte>, at: nat)
    returns (pos: nat, bitIndex: nat, ghost whole: BitString, ghost partial: BitString)
    requires |table| == EOS + 1 && forall i :: 0 <= i <= EOS ==> table[i].len >= 1
    requires 8 * at + |Encode(table, val)| < 8 * out.Length && Written(out[..], at, at, [], [])
    modifies out
    ensures at <= pos && 8 * pos + bitIndex == 8 * at + |Encode(table, val)|
    ensures bitIndex == |partial| < 8 && Written(out[..], at, pos, whole, partial) && whole + partial == Encode(table, val)
    ensures forall k :: 0 <= k < at || pos < k < out.Length ==> out[k] == old(out[k])
  {
    assert |table| == 257;
    hide *;
    bitIndex, pos, whole, partial := 0, at, [], [];
    EncodeNothing(table, val);
    for i := 0 to |val|
      invariant at <= pos && 8 * pos + bitIndex == 8 * at + |Encode(table, val[..i])|
      invariant bitIndex == |partial| < 8 && Written(out[..], at, pos, whole, partial)
      invariant whole + partial == Encode(table, val[..i])
      invariant forall k :: 0 <= k < at || pos < k < out.Length ==> out[k] == old(out[k])
    {
      EncodeMore(table, val, i);
      pos, bitIndex, whole, partial := PutCode(table[val[i]], out, pos, bitIndex, at, whole, partial);
    }
    assert val[..|val|] == val;
  }

  /** The rest of a byte that was begun is filled with ones. */
  method Pad(out: array<Byte>, at: nat, last: nat, bitIndex: nat, ghost whole: BitString, ghost partial: BitString, ghost e: BitString)
    returns (pos: nat)
    requires bitIndex == |partial| < 8 && Written(out[..], at, last, whole, partial) && e == whole + partial
    modifies out
    ensures at <= last < out.Length && pos == last + (if bitIndex == 0 then 0 else 1)
    ensures BitsOfBytes(out[at..pos]) == e + Ones(if bitIndex == 0 then 0 else 8 - bitIndex)
    ensures forall k :: 0 <= k < out.Length && k != last ==> out[k] == old(out[k])
  {
    hide BitsOfBytes, AddByte, Val, BitsOf;
    pos := last;
    if bitIndex != 0 {
      PadByte(out[..], at, pos, whole, partial);
      ghost var s := out[..];
      out[pos] := AddByte(out[pos], MASK[bitIndex]);
      assert out[..] == s[pos := out[pos]];
      pos := pos + 1;
      assert whole + (partial + Ones(8 - |partial|)) == e + Ones(8 - |partial|);
    } else {
      WholeBytes(out[..], at, pos, whole, partial);
      assert e + Ones(0) == e == whole;
    }
  }

  lemma WholeBytes(s: seq<Byte>, start: nat, pos: nat, whole: BitString, partial: BitString)
    requires Written(s, start, pos, whole, partial)
    ensures pos < |s| && BitsOfBytes(s[start..pos]) == whole
  {
  }

  lemma StartByte(s: seq<Byte>, at: nat)
    requires at < |s| && s[at] == 0
    ensures Written(s, at, at, [], [])
  {
    assert [] + Zeros(8) == Zeros(8);
    ValZeros(8);
  }
}
