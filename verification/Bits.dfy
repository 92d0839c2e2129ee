/**
  Numbers and their bits, most significant bit first: the arithmetic behind the shifts and masks of
  library/http/lib/hpack.cpp.
 */
module Bits {

  type Byte = x: int | 0 <= x < 256
  type BitString = seq<bool>

  function Pow2(n: nat): (r: nat)
    ensures r >= 1
  {
    if n == 0 then 1 else 2 * Pow2(n - 1)
  }

  /** The number a bit string stands for. */
  function Val(b: BitString): (r: nat)
    ensures r < Pow2(|b|)
  {
    if b == [] then 0 else 2 * Val(b[..|b| - 1]) + if b[|b| - 1] then 1 else 0
  }

  /** The low n bits of c. */
  function BitsOf(c: nat, n: nat): (b: BitString)
    ensures |b| == n
  {
    if n == 0 then [] else BitsOf(c / 2, n - 1) + [c % 2 == 1]
  }

  function Ones(n: nat): (b: BitString)
    ensures |b| == n
  {
    seq(n, i => true)
  }

  function Zeros(n: nat): (b: BitString)
    ensures |b| == n
  {
    seq(n, i => false)
  }

  /** The bits of a byte string. */
  function BitsOfBytes(s: seq<Byte>): (b: BitString)
    ensures |b| == 8 * |s|
  {
    if s == [] then [] else BitsOfBytes(s[..|s| - 1]) + BitsOf(s[|s| - 1], 8)
  }

  lemma {:induction false} Pow2Add(a: nat, b: nat)
    ensures Pow2(a + b) == Pow2(a) * Pow2(b)
  {
    if b > 0 { Pow2Add(a, b - 1); }
  }

  lemma {:induction false} ValOfBits(c: nat, n: nat)
    ensures Val(BitsOf(c, n)) == c % Pow2(n)
  {
    if n > 0 {
      ValOfBits(c / 2, n - 1);
      var b := BitsOf(c, n);
      assert b[..n - 1] == BitsOf(c / 2, n - 1);
      ModHalf(c, Pow2(n - 1));
    }
  }

  lemma ModHalf(c: nat, m: nat)
    requires m >= 1
    ensures c % (2 * m) == 2 * (c / 2 % m) + c % 2
  {
    var q, r := c / 2 / m, c / 2 % m;
    assert c / 2 == q * m + r;
    assert c == q * (2 * m) + (2 * r + c % 2);
    DivModUnique(c, 2 * m, q, 2 * r + c % 2);
  }

  lemma DivModUnique(x: nat, d: nat, q: nat, r: nat)
    requires d >= 1 && r < d && x == q * d + r
    ensures x / d == q && x % d == r
  {
    var e := x / d - q;
    assert x == (x / d) * d + x % d;
    assert e * d == r - x % d;
    MulBound(e, d);
  }

  lemma MulBound(e: int, d: nat)
    ensures e >= 1 ==> e * d >= d
    ensures e <= -1 ==> e * d <= -(d as int)
  {
  }

  lemma {:induction false} BitsOfVal(b: BitString)
    ensures BitsOf(Val(b), |b|) == b
  {
    if b != [] {
      BitsOfVal(b[..|b| - 1]);
    }
  }

  lemma ValAppend(b: BitString, x: bool)
    ensures Val(b + [x]) == 2 * Val(b) + if x then 1 else 0
  {
    assert (b + [x])[..|b|] == b;
  }

  lemma {:induction false} ValConcat(a: BitString, b: BitString)
    ensures Val(a + b) == Val(a) * Pow2(|b|) + Val(b)
  {
    if b == [] {
      assert a + b == a;
    } else {
      hide Val, Pow2;
      var c, x := b[..|b| - 1], b[|b| - 1];
      ValConcat(a, c);
      Pow2Next(|c|);
      assert a + b == (a + c) + [x] && b == c + [x];
      ValAppend(a + c, x);
      ValAppend(c, x);
      Double(Val(a), Pow2(|c|));
    }
  }

  lemma Pow2Next(n: nat)
    ensures Pow2(n + 1) == 2 * Pow2(n)
  {
  }

  lemma Double(x: nat, y: nat)
    ensures x * (2 * y) == 2 * (x * y)
  {
  }

  lemma {:induction false} ValZeros(n: nat)
    ensures Val(Zeros(n)) == 0
  {
    if n > 0 {
      ValZeros(n - 1);
      assert Zeros(n)[..n - 1] == Zeros(n - 1);
    }
  }

  lemma {:induction false} ValOnes(n: nat)
    ensures Val(Ones(n)) == Pow2(n) - 1
  {
    if n > 0 {
      ValOnes(n - 1);
      assert Ones(n)[..n - 1] == Ones(n - 1);
    }
  }

  /** The first bits of a number are those of the number shifted right. */
  lemma {:induction false} HighBits(c: nat, n: nat, k: nat)
    requires k <= n
    ensures BitsOf(c, n)[..k] == BitsOf(c / Pow2(n - k), k)
    decreases n - k
  {
    if k < n {
      HighBits(c / 2, n - 1, k);
      assert BitsOf(c, n)[..k] == BitsOf(c / 2, n - 1)[..k];
      DivTwice(c, Pow2(n - 1 - k));
    } else {
      assert BitsOf(c, n)[..k] == BitsOf(c, n);
    }
  }

  lemma DivTwice(c: nat, m: nat)
    requires m >= 1
    ensures c / 2 / m == c / (2 * m)
  {
    var q, r := c / 2 / m, c / 2 % m;
    assert c / 2 == q * m + r;
    assert c == q * (2 * m) + (2 * r + c % 2);
    DivModUnique(c, 2 * m, q, 2 * r + c % 2);
  }

  /** The last bits of a number do not depend on the higher ones. */
  lemma {:induction false} LowBits(c: nat, n: nat, k: nat)
    requires k <= n
    ensures BitsOf(c, n)[n - k..] == BitsOf(c, k)
  {
    if k > 0 {
      LowBits(c / 2, n - 1, k - 1);
      assert BitsOf(c, n)[n - k..] == BitsOf(c / 2, n - 1)[n - k..] + [c % 2 == 1];
    }
  }

  /** Bits a up to b, counted from the left, as the shift and mask compute them. */
  lemma Slice(c: nat, n: nat, a: nat, b: nat)
    requires a <= b <= n
    ensures Val(BitsOf(c, n)[a..b]) == c / Pow2(n - b) % Pow2(b - a)
  {
    hide Pow2, Val, BitsOf;
    HighBits(c, n, b);
    var h := c / Pow2(n - b);
    assert BitsOf(c, n)[a..b] == BitsOf(c, n)[..b][a..];
    LowBits(h, b, b - a);
    ValOfBits(h, b - a);
  }

  lemma BitsOfBytesAppend(s: seq<Byte>, c: Byte)
    ensures BitsOfBytes(s + [c]) == BitsOfBytes(s) + BitsOf(c, 8)
  {
    assert (s + [c])[..|s|] == s;
  }

  lemma {:induction false} ByteBit(s: seq<Byte>, i: nat, j: nat)
    requires i < |s| && j < 8
    ensures BitsOfBytes(s)[8 * i + j] == BitsOf(s[i], 8)[j]
  {
    if i < |s| - 1 {
      ByteBit(s[..|s| - 1], i, j);
    }
  }

  /** Bit i of a number, read off by division, is bit i of its bit string. */
  lemma {:induction false} BitAt(c: nat, n: nat, i: nat)
    requires i < n
    ensures BitsOf(c, n)[i] == (c / Pow2(n - 1 - i) % 2 == 1)
  {
    if i < n - 1 {
      BitAt(c / 2, n - 1, i);
      DivTwice(c, Pow2(n - 2 - i));
    }
  }

  lemma Cancel(a: nat, b: nat, m: nat)
    requires m >= 1
    ensures a * m <= b * m ==> a <= b
    ensures a * m < b * m ==> a < b
  {
    MulBound(a - b, m);
    assert (a - b) * m == a * m - b * m;
  }

  lemma Pow2Of30()
    ensures Pow2(30) == 0x4000_0000
  {
    assert Pow2(5) == 32;
    hide Pow2;
    Pow2Add(5, 5);
    Pow2Add(10, 5);
    Pow2Add(15, 15);
  }

  lemma ShiftedFits(c: nat, m: nat, n: nat)
    requires m <= n && c < Pow2(n)
    ensures c / Pow2(n - m) < Pow2(m)
  {
    hide Pow2;
    Pow2Add(m, n - m);
    QuotientBelow(c, Pow2(n - m), Pow2(m));
  }

  lemma QuotientBelow(c: nat, d: nat, p: nat)
    requires d >= 1 && c < p * d
    ensures c / d < p
  {
    DivBelow(c, d);
    Cancel(c / d, p, d);
  }

  lemma DivBelow(c: nat, d: nat)
    requires d >= 1
    ensures c / d * d <= c
  {
  }

  /** A number whose bits begin those of another is that other one shifted right. */
  lemma PrefixIsShift(a: nat, m: nat, b: nat, n: nat)
    requires a < Pow2(m) && b < Pow2(n) && BitsOf(a, m) <= BitsOf(b, n)
    ensures m <= n && a == b / Pow2(n - m)
  {
    hide Pow2, Val, BitsOf;
    HighBits(b, n, m);
    ShiftedFits(b, m, n);
    ValOfFitting(a, m);
    ValOfFitting(b / Pow2(n - m), m);
    assert BitsOf(a, m) == BitsOf(b, n)[..m];
  }

  lemma ValOfFitting(c: nat, n: nat)
    requires c < Pow2(n)
    ensures Val(BitsOf(c, n)) == c
  {
    ValOfBits(c, n);
    ModSmall(c, Pow2(n));
  }

  lemma ModSmall(a: nat, m: nat)
    requires a < m
    ensures a % m == a
  {
  }

  // Shifts and masks by name, so that users need no multiplication.

  function Shl(x: nat, k: nat): nat {
    x * Pow2(k)
  }

  function Shr(x: nat, k: nat): nat {
    NoNegativeQuotient(x, Pow2(k));
    x / Pow2(k)
  }

  lemma NoNegativeQuotient(x: nat, d: nat)
    requires d >= 1
    ensures x / d >= 0
  {
  }

  function Low(x: nat, k: nat): nat {
    x % Pow2(k)
  }

  lemma ShlTwice(x: nat, a: nat, b: nat)
    ensures Shl(x, a + b) == Shl(Shl(x, a), b)
  {
    Pow2Add(a, b);
    MulAssoc(x, Pow2(a), Pow2(b));
  }

  lemma MulAssoc(x: nat, y: nat, z: nat)
    ensures x * (y * z) == x * y * z
  {
  }

  lemma ShlSum(x: nat, y: nat, k: nat)
    ensures Shl(x + y, k) == Shl(x, k) + Shl(y, k)
  {
  }

  lemma ValJoin(a: BitString, b: BitString)
    ensures Val(a + b) == Shl(Val(a), |b|) + Val(b)
  {
    ValConcat(a, b);
  }

  /** Masking after a shift is shifting what was masked. */
  lemma LowShl(c: nat, left: nat, k: nat)
    ensures Low(Shl(c, k), left + k) == Shl(Low(c, left), k)
  {
    var q, p := Pow2(left), Pow2(k);
    Pow2Add(left, k);
    hide Pow2;
    ModScale(c, q, p);
  }

  lemma ModScale(c: nat, q: nat, p: nat)
    requires q >= 1 && p >= 1
    ensures c * p % (q * p) == c % q * p
  {
    var d, r := c / q, c % q;
    ScaledParts(c, d, q, r, p);
    Cancel(q, r, p);
    DivModUnique(c * p, q * p, d, r * p);
  }

  lemma ScaledParts(c: nat, d: nat, q: nat, r: nat, p: nat)
    requires c == d * q + r
    ensures c * p == d * (q * p) + r * p
  {
    MulAssoc(d, q, p);
    assert (d * q + r) * p == d * q * p + r * p;
  }

  /** Bits a up to b, counted from the left, by shift and mask. */
  lemma SliceLow(c: nat, n: nat, a: nat, b: nat)
    requires a <= b <= n
    ensures Val(BitsOf(c, n)[a..b]) == Low(Shr(c, n - b), b - a)
  {
    Slice(c, n, a, b);
  }
}
