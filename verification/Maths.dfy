/**
  Numbers as text in any radix up to 36, as core/include/mms/base/maths.h writes and reads them, for integer
  types of every width.
 */
module Maths {
  import opened Options
  import Bits

  type Radix = r: nat | 2 <= r <= 36 witness 10

  /** How many values an unsigned type has. */
  type Width = w: nat | w >= 0x100 witness 0x100

  const WORD16: Width := 0x1_0000

  /** The tables lower_case_numbers and upper_case_numbers. */
  function DigitChar(d: nat, upper: bool): char
    requires d < 36
  {
    if d < 10 then '0' + d as char else (if upper then 'A' else 'a') + (d - 10) as char
  }

  /** The table char_to_int, which ends at sixteen. */
  function CharToInt(c: char): (d: nat)
    ensures d < 16
  {
    if '0' <= c <= '9' then (c - '0') as nat
    else if 'A' <= c <= 'F' then (c - 'A') as nat + 10
    else if 'a' <= c <= 'f' then (c - 'a') as nat + 10
    else 0
  }

  /** The digits of n, most significant first. */
  function Digits(n: nat, radix: Radix, upper: bool): (s: string)
    ensures s != ""
  {
    Quotient(n, radix);
    if n < radix then [DigitChar(n, upper)] else Digits(n / radix, radix, upper) + [DigitChar(n % radix, upper)]
  }

  /** What an accumulator of an unsigned type holds after reading s on top of v. */
  function Read(v: nat, s: string, radix: Radix, w: Width): (r: nat)
    ensures v < w ==> r < w
    decreases |s|
  {
    if s == "" then v else Read((v * radix + CharToInt(s[0])) % w, s[1..], radix, w)
  }

  lemma {:induction false} ReadAppend(v: nat, s: string, t: string, radix: Radix, w: Width)
    ensures Read(v, s + t, radix, w) == Read(Read(v, s, radix, w), t, radix, w)
    decreases |s|
  {
    if s == "" {
      assert s + t == t;
    } else {
      assert (s + t)[1..] == s[1..] + t;
      ReadAppend((v * radix + CharToInt(s[0])) % w, s[1..], t, radix, w);
    }
  }

  lemma DigitBack(d: nat, upper: bool)
    requires d < 36
    ensures CharToInt(DigitChar(d, upper)) == if d < 16 then d else 0
  {
  }

  /** A digit that the table of the reader knows. */
  predicate IsHex(c: char) {
    '0' <= c <= '9' || 'a' <= c <= 'f' || 'A' <= c <= 'F'
  }

  /** Reading undoes writing exactly if no digit is worth sixteen or more; otherwise something smaller is read. */
  lemma {:induction false} ReadDigitsIff(n: nat, radix: Radix, upper: bool, w: Width)
    requires n < w
    ensures Read(0, Digits(n, radix, upper), radix, w) <= n
    ensures Read(0, Digits(n, radix, upper), radix, w) == n <==> forall c :: c in Digits(n, radix, upper) ==> IsHex(c)
  {
    hide Read, CharToInt, DigitChar, IsHex;
    if n < radix {
      OneDigit(0, n, radix, upper, w);
    } else {
      Shrinks(n, radix);
      var q, d := n / radix, n % radix;
      ReadDigitsIff(q, radix, upper, w);
      var r := Read(0, Digits(q, radix, upper), radix, w);
      NotMore(r, q, radix, d, w);
      ReadAppend(0, Digits(q, radix, upper), [DigitChar(d, upper)], radix, w);
      OneDigit(r, d, radix, upper, w);
    }
  }

  /** Up to sixteen every digit is known. */
  lemma ReadDigits(n: nat, radix: Radix, upper: bool, w: Width)
    requires n < w && radix <= 16
    ensures Read(0, Digits(n, radix, upper), radix, w) == n
  {
    hide Read, IsHex;
    SmallDigits(n, radix, upper);
    ReadDigitsIff(n, radix, upper, w);
  }

  lemma {:induction false} SmallDigits(n: nat, radix: Radix, upper: bool)
    requires radix <= 16
    ensures forall c :: c in Digits(n, radix, upper) ==> IsHex(c)
  {
    if n >= radix {
      Shrinks(n, radix);
      SmallDigits(n / radix, radix, upper);
    }
  }

  lemma NotMore(r: nat, q: nat, radix: Radix, d: nat, w: Width)
    requires r <= q && q * radix + d < w
    ensures r * radix <= q * radix && r * radix + d < w
    ensures r < q ==> r * radix + radix <= q * radix
  {
    assert (q - r) * radix == q * radix - r * radix;
    assert r < q ==> (q - r - 1) * radix >= 0;
  }

  lemma OneDigit(r: nat, d: nat, radix: Radix, upper: bool, w: Width)
    requires d < radix && r * radix + d < w
    ensures Read(r, [DigitChar(d, upper)], radix, w) == r * radix + if d < 16 then d else 0
    ensures IsHex(DigitChar(d, upper)) <==> d < 16
  {
    hide DigitChar, CharToInt, IsHex;
    DigitBack(d, upper);
    DigitIsHex(d, upper);
    var s := [DigitChar(d, upper)];
    assert s[1..] == "";
    NoWrap(r * radix + CharToInt(s[0]), w);
  }

  lemma DigitIsHex(d: nat, upper: bool)
    requires d < 36
    ensures IsHex(DigitChar(d, upper)) <==> d < 16
  {
  }

  lemma NoWrap(x: nat, w: Width)
    requires x < w
    ensures x % w == x
  {
  }

  lemma Shrinks(n: nat, radix: Radix)
    requires n >= radix
    ensures 0 < n / radix < n && n == n / radix * radix + n % radix
  {
  }

  /** No leading zero, but for zero itself. */
  lemma {:induction false} NoLeadingZero(n: nat, radix: Radix, upper: bool)
    ensures Digits(n, radix, upper)[0] == '0' <==> n == 0
  {
    DigitBack(n % radix, upper);
    if n >= radix {
      Shrinks(n, radix);
      NoLeadingZero(n / radix, radix, upper);
    } else {
      DigitBack(n, upper);
    }
  }

  /** How many digits there are, against a power of the radix. */
  lemma {:induction false} LengthBound(n: nat, radix: Radix, upper: bool, k: nat)
    requires k >= 1 && n < Power(radix, k)
    ensures |Digits(n, radix, upper)| <= k
  {
    if n >= radix {
      assert Power(radix, 1) == radix;
      Shrinks(n, radix);
      Below(n, radix, Power(radix, k - 1));
      LengthBound(n / radix, radix, upper, k - 1);
    }
  }

  function Power(radix: nat, k: nat): nat {
    if k == 0 then 1 else radix * Power(radix, k - 1)
  }

  lemma Below(n: nat, radix: Radix, p: nat)
    requires n < radix * p
    ensures n / radix < p
  {
  }

  // The digits against positional notation, with 0 to 9 and then a to z in the order of the alphabet.

  /** The value of a digit of any radix, in either case. */
  function ValueOf(c: char): Option<nat> {
    if '0' <= c <= '9' then Some((c - '0') as nat)
    else if 'a' <= c <= 'z' then Some(10 + (c - 'a') as nat)
    else if 'A' <= c <= 'Z' then Some(10 + (c - 'A') as nat)
    else None
  }

  /** One more digit behind a number. */
  function Behind(n: nat, d: nat, radix: Radix): nat {
    n * radix + d
  }

  /** What a text means; None if a character is no digit of the radix. */
  function Meant(s: string, radix: Radix): Option<nat> {
    if s == "" then Some(0) else
      match (Meant(s[..|s| - 1], radix), ValueOf(s[|s| - 1]))
      case (Some(front), Some(d)) => if d < radix then Some(Behind(front, d, radix)) else None
      case _ => None
  }

  /** The text of a number means that number. */
  lemma {:induction false} DigitsMean(n: nat, radix: Radix, upper: bool)
    ensures Meant(Digits(n, radix, upper), radix) == Some(n)
  {
    hide DigitChar, ValueOf;
    Shrinks'(n, radix);
    DigitMeans(n % radix, upper);
    var s := Digits(n, radix, upper);
    if n < radix {
      DigitMeans(n, upper);
      assert s[..0] == "" && Meant("", radix) == Some(0);
    } else {
      DigitsMean(n / radix, radix, upper);
      assert s[..|s| - 1] == Digits(n / radix, radix, upper);
    }
  }

  lemma Shrinks'(n: nat, radix: Radix)
    ensures n >= radix ==> 0 < n / radix < n && n == n / radix * radix + n % radix
  {
    if n >= radix {
      Shrinks(n, radix);
    }
  }

  lemma DigitMeans(d: nat, upper: bool)
    requires d < 36
    ensures ValueOf(DigitChar(d, upper)) == Some(d)
  {
  }

  /** The reader's table has the values below sixteen, and 0 for everything else. */
  lemma TableMeans(c: char)
    ensures CharToInt(c) == match ValueOf(c) case Some(d) => (if d < 16 then d else 0) case None => 0
  {
  }

  /** Any text of digits below sixteen, with leading zeros and in either case, is read as what it means, up to the width of the type. */
  lemma {:induction false} ReadIsMeant(s: string, radix: Radix, w: Width)
    requires Meant(s, radix).Some? && forall c :: c in s ==> IsHex(c)
    ensures Read(0, s, radix, w) == Meant(s, radix).value % w
    decreases |s|
  {
    hide *;
    if s == "" {
      ReadNothing(radix, w);
      NoWrap(0, w);
    } else {
      MeantLast(s, radix);
      var front, c := s[..|s| - 1], s[|s| - 1];
      ReadIsMeant(front, radix, w);
      assert s == front + [c];
      ReadAppend(0, front, [c], radix, w);
      ReadLast(Read(0, front, radix, w), c, radix, w);
      assert c in s;
      TableMeans(c);
      HexIsSmall(c);
      ModStep(Meant(front, radix).value, ValueOf(c).value, radix, w);
    }
  }

  lemma MeantLast(s: string, radix: Radix)
    requires s != "" && Meant(s, radix).Some?
    ensures var front, d := Meant(s[..|s| - 1], radix), ValueOf(s[|s| - 1]);
            front.Some? && d.Some? && d.value < radix && Meant(s, radix).value == Behind(front.value, d.value, radix)
  {
  }

  lemma ReadNothing(radix: Radix, w: Width)
    ensures Read(0, "", radix, w) == 0 && Meant("", radix) == Some(0)
  {
  }

  lemma ReadLast(v: nat, c: char, radix: Radix, w: Width)
    ensures Read(v, [c], radix, w) == Behind(v, CharToInt(c), radix) % w
  {
    assert [c][1..] == "";
  }

  lemma HexIsSmall(c: char)
    ensures IsHex(c) <==> ValueOf(c).Some? && ValueOf(c).value < 16
  {
  }

  lemma ModStep(x: nat, d: nat, radix: Radix, w: Width)
    ensures Behind(x % w, d, radix) % w == Behind(x, d, radix) % w
  {
    var y := x % w * radix + d;
    Parted(x, w);
    Parted(y, w);
    MulParts(x / w, w, x % w, radix);
    AddParts(x / w * radix, y / w, w);
    Bits.DivModUnique(x * radix + d, w, x / w * radix + y / w, y % w);
  }

  lemma Parted(x: nat, w: Width)
    ensures x == x / w * w + x % w && x / w >= 0
  {
  }

  lemma MulParts(q: nat, w: nat, r: nat, radix: nat)
    ensures (q * w + r) * radix == (q * radix) * w + r * radix
  {
    assert (q * w + r) * radix == (q * w) * radix + r * radix;
    assert (q * w) * radix == q * (w * radix) == q * (radix * w) == (q * radix) * w;
  }

  lemma AddParts(a: nat, b: nat, w: nat)
    ensures a * w + b * w == (a + b) * w
  {
  }

  /** A digit or a letter of the one case. */
  predicate IsDigitIn(c: char, upper: bool) {
    '0' <= c <= '9' || if upper then 'A' <= c <= 'Z' else 'a' <= c <= 'z'
  }

  lemma {:induction false} OnlyDigits(n: nat, radix: Radix, upper: bool)
    ensures forall c :: c in Digits(n, radix, upper) ==> IsDigitIn(c, upper)
  {
    if n >= radix {
      Shrinks(n, radix);
      OnlyDigits(n / radix, radix, upper);
    }
  }

  // The loop of to_string writes the digits from the last to the first and then turns them round.

  function LowFirst(n: nat, radix: Radix, upper: bool): (s: string)
    ensures s != ""
  {
    Quotient(n, radix);
    [DigitChar(n % radix, upper)] + if n < radix then "" else LowFirst(n / radix, radix, upper)
  }

  function Reversed(s: string): string {
    if s == "" then "" else Reversed(s[1..]) + [s[0]]
  }

  lemma {:induction false} LowFirstIsReverse(n: nat, radix: Radix, upper: bool)
    ensures Reversed(LowFirst(n, radix, upper)) == Digits(n, radix, upper)
  {
    var s := LowFirst(n, radix, upper);
    if n >= radix {
      Shrinks(n, radix);
      assert s[1..] == LowFirst(n / radix, radix, upper);
      LowFirstIsReverse(n / radix, radix, upper);
    } else {
      assert s[1..] == "" && n % radix == n;
    }
  }

  lemma {:induction false} ReversedAt(s: string, k: nat)
    requires k < |s|
    ensures |Reversed(s)| == |s| && Reversed(s)[k] == s[|s| - 1 - k]
  {
    if |s| > 1 {
      ReversedAt(s[1..], if k < |s| - 1 then k else 0);
    }
  }

  method Put(dest: array<char>, at: nat, c: char)
    requires at < dest.Length
    modifies dest
    ensures dest[..at + 1] == old(dest[..at]) + [c]
    ensures forall k :: at + 1 <= k < dest.Length ==> dest[k] == old(dest[k])
  {
    dest[at] := c;
  }

  /** std::reverse on part of the buffer. */
  method Reverse(dest: array<char>, from: nat, to: nat)
    requires from <= to <= dest.Length
    modifies dest
    ensures dest[..to] == old(dest[..from]) + Reversed(old(dest[from..to]))
    ensures forall k :: to <= k < dest.Length ==> dest[k] == old(dest[k])
  {
    SwapEnds(dest, from, to);
    ghost var was := old(dest[from..to]);
    if to > from { ReversedAt(was, 0); }
    forall k | 0 <= k < to - from ensures |Reversed(was)| == to - from && dest[from + k] == Reversed(was)[k] {
      ReversedAt(was, k);
    }
  }

  method SwapEnds(dest: array<char>, from: nat, to: nat)
    requires from <= to <= dest.Length
    modifies dest
    ensures forall k :: from <= k < to ==> dest[k] == old(dest[from + to - 1 - k])
    ensures forall k :: 0 <= k < from || to <= k < dest.Length ==> dest[k] == old(dest[k])
  {
    var i, n := 0, to - from;
    while i < n / 2
      invariant 0 <= i <= n / 2
      invariant forall k :: from <= k < from + i ==> dest[k] == old(dest[from + to - 1 - k])
      invariant forall k :: to - i <= k < to ==> dest[k] == old(dest[from + to - 1 - k])
      invariant forall k :: 0 <= k < from || to <= k < dest.Length || from + i <= k < to - i ==> dest[k] == old(dest[k])
    {
      dest[from + i], dest[to - 1 - i] := dest[to - 1 - i], dest[from + i];
      i := i + 1;
    }
  }

  /** to_string of an unsigned number, without or with the closing NUL; returns where the text ends. */
  method ToString(val: nat, radix: Radix, upper: bool, terminated: bool, dest: array<char>, at: nat) returns (end: nat)
    requires at + |Digits(val, radix, upper)| + (if terminated then 1 else 0) <= dest.Length
    modifies dest
    ensures end == at + |Digits(val, radix, upper)| + (if terminated then 1 else 0)
    ensures dest[..end] == old(dest[..at]) + (Digits(val, radix, upper) + (if terminated then "\0" else ""))
    ensures forall k :: end <= k < dest.Length ==> dest[k] == old(dest[k])
  {
    hide *;
    ghost var text := LowFirst(val, radix, upper);
    LowFirstIsReverse(val, radix, upper);
    ReversedLength(text);
    end := WriteLowFirst(val, radix, upper, dest, at);
    Parts(dest[..end], at, old(dest[..at]), text);
    SubSlices(dest, at, end);
    Reverse(dest, at, end);
    if terminated {
      Put(dest, end, '\0');
      end := end + 1;
    }
  }

  lemma Parts(whole: string, n: nat, a: string, b: string)
    requires whole == a + b && n == |a|
    ensures whole[..n] == a && whole[n..] == b
  {
  }

  lemma SubSlices(dest: array<char>, at: nat, end: nat)
    requires at <= end <= dest.Length
    ensures dest[..end][..at] == dest[..at] && dest[..end][at..] == dest[at..end]
  {
  }

  lemma ReversedLength(s: string)
    ensures |Reversed(s)| == |s|
  {
    if s != "" {
      ReversedAt(s, 0);
    }
  }

  /** The do-while loop over the digits. */
  method WriteLowFirst(val: nat, radix: Radix, upper: bool, dest: array<char>, at: nat) returns (end: nat)
    requires at + |LowFirst(val, radix, upper)| <= dest.Length
    modifies dest
    ensures end == at + |LowFirst(val, radix, upper)| && dest[..end] == old(dest[..at]) + LowFirst(val, radix, upper)
    ensures forall k :: end <= k < dest.Length ==> dest[k] == old(dest[k])
  {
    hide *;
    ghost var text := dest[..at] + LowFirst(val, radix, upper);
    var rest: nat, more := val, true;
    end := at;
    while more
      invariant end + (if more then |LowFirst(rest, radix, upper)| else 0) == |text| <= dest.Length
      invariant dest[..end] + (if more then LowFirst(rest, radix, upper) else "") == text
      invariant forall k :: end <= k < dest.Length ==> dest[k] == old(dest[k])
      decreases if more then rest + 1 else 0
    {
      LowFirstStep(rest, radix, upper);
      Regroup(dest[..end], DigitChar(Last(rest, radix), upper),
              if Front(rest, radix) != 0 then LowFirst(Front(rest, radix), radix, upper) else "");
      Put(dest, end, DigitChar(Last(rest, radix), upper));
      end := end + 1;
      rest := Front(rest, radix);
      more := rest != 0;
    }
  }

  lemma Regroup(s: string, c: char, t: string)
    ensures (s + [c]) + t == s + ([c] + t)
  {
  }

  /** val1 % radix. */
  function Last(n: nat, radix: Radix): (d: nat)
    ensures d < radix
  {
    n % radix
  }

  /** val1 / radix. */
  function Front(n: nat, radix: Radix): nat {
    n / radix
  }

  lemma LowFirstStep(n: nat, radix: Radix, upper: bool)
    ensures LowFirst(n, radix, upper) ==
            [DigitChar(Last(n, radix), upper)] + if Front(n, radix) == 0 then "" else LowFirst(Front(n, radix), radix, upper)
    ensures Front(n, radix) != 0 ==> Front(n, radix) < n
  {
    hide DigitChar;
    Quotient(n, radix);
  }

  lemma Quotient(n: nat, radix: Radix)
    ensures n / radix == 0 <==> n < radix
    ensures n > 0 ==> n / radix < n
  {
  }

  // Signed numbers, in radix ten: a type of the values from -half to half - 1.

  type Half = h: nat | h >= 0x80 witness 0x80

  function Least(half: Half): int {
    -(half as int)
  }

  predicate InType(v: int, half: Half) {
    Least(half) <= v < half
  }

  /** abs, back in the type: the least value has no positive counterpart and stays as it is. */
  function Abs(v: int, half: Half): int {
    if v >= 0 || v == Least(half) then v else -v
  }

  /** The text of a signed number; None where the loop takes a negative remainder as an index into the table of digits. */
  function SignedText(v: int, half: Half): Option<string> {
    if Abs(v, half) < 0 then None
    else Some(SignedDigits(v))
  }

  function SignedDigits(v: int): string {
    if v < 0 then "-" + Digits(-v, 10, false) else Digits(v, 10, false)
  }

  /** A number of 2 * half values seen as signed. */
  function Signed(x: int, half: Half): (v: int)
    ensures InType(v, half)
  {
    var r := x % (2 * half);
    if r < half then r else r - 2 * half
  }

  /** to_int. */
  function ReadSigned(s: string, radix: Radix, half: Half): int {
    var sign := if s != "" && s[0] == '-' then -1 else 1;
    var digits := if s != "" && (s[0] == '-' || s[0] == '+') then s[1..] else s;
    Signed(sign * Read(0, digits, radix, 2 * half), half)
  }

  /** Every signed number comes back but the least of its type, which cannot be written. */
  lemma SignedRoundTripIff(v: int, half: Half)
    requires InType(v, half)
    ensures (SignedText(v, half).Some? && ReadSigned(SignedText(v, half).value, 10, half) == v) <==> v != Least(half)
  {
    hide Read, Digits, Signed, SignedText;
    AbsIs(v, half);
    if v != Least(half) {
      var n := if v < 0 then -v else v;
      ReadDigits(n, 10, false, 2 * half);
      FirstIsDigit(n);
      SignedSame(v, half);
      assert (['-'] + Digits(n, 10, false))[1..] == Digits(n, 10, false);
    }
  }

  lemma SignedSame(v: int, half: Half)
    requires InType(v, half)
    ensures Signed(v, half) == v
  {
    var w: Width := 2 * half;
    if v < 0 {
      ModNegative(v, w);
    } else {
      NoWrap(v, w);
    }
  }

  lemma ModNegative(v: int, w: Width)
    requires -(w as int) <= v < 0
    ensures v % w == v + w
  {
    var q, r := v / w, v % w;
    assert v == q * w + r;
    assert q >= 0 ==> q * w >= 0;
    assert q <= -2 ==> (q + 2) * w <= 0;
  }

  lemma {:induction false} FirstIsDigit(n: nat)
    ensures '0' <= Digits(n, 10, false)[0] <= '9'
  {
    if n >= 10 {
      FirstIsDigit(n / 10);
    }
  }

  /** to_string of a signed number: the sign is put behind the digits before all of it is turned round. */
  method ToStringSigned(val: int, half: Half, terminated: bool, dest: array<char>, at: nat) returns (ok: bool, end: nat)
    requires InType(val, half)
    requires SignedText(val, half).Some? ==> at + |SignedText(val, half).value| + (if terminated then 1 else 0) <= dest.Length
    modifies dest
    ensures ok == SignedText(val, half).Some?
    ensures ok ==> end <= dest.Length &&
                   dest[..end] == old(dest[..at]) + (SignedText(val, half).value + (if terminated then "\0" else ""))
    ensures ok ==> forall k :: end <= k < dest.Length ==> dest[k] == old(dest[k])
  {
    hide *;
    AbsIs(val, half);
    ok, end := val != Least(half), at;
    if ok {
      ghost var before, text := dest[..at], SignedText(val, half).value;
      end := PutSigned(val, dest, at);
      if terminated {
        PutEnd(before, text, dest, end);
        end := end + 1;
      } else {
        assert text + "" == text;
      }
    }
  }

  /** The digits, the sign behind them, and then all of it turned round. */
  method PutSigned(val: int, dest: array<char>, at: nat) returns (end: nat)
    requires at + |SignedDigits(val)| <= dest.Length
    modifies dest
    ensures end == at + |SignedDigits(val)| && dest[..end] == old(dest[..at]) + SignedDigits(val)
    ensures forall k :: end <= k < dest.Length ==> dest[k] == old(dest[k])
  {
    hide *;
    SignedDigitsIs(val);
    var val1: nat := if val < 0 then -val else val;
    ghost var text := LowFirst(val1, 10, false);
    LowFirstIsReverse(val1, 10, false);
    ReversedLength(text);
    end := WriteLowFirst(val1, 10, false, dest, at);
    if val < 0 {
      Put(dest, end, '-');
      end := end + 1;
      ReversedMore(text, '-');
      text := text + ['-'];
    }
    assert Reversed(text) == SignedDigits(val);
    Parts(dest[..end], at, old(dest[..at]), text);
    SubSlices(dest, at, end);
    Reverse(dest, at, end);
  }

  lemma SignedDigitsIs(val: int)
    ensures SignedDigits(val) == if val < 0 then ['-'] + Digits(-val, 10, false) else Digits(val, 10, false)
  {
  }

  /** The closing NUL behind a text. */
  method PutEnd(ghost before: string, ghost text: string, dest: array<char>, end: nat)
    requires end < dest.Length && dest[..end] == before + text
    modifies dest
    ensures dest[..end + 1] == before + (text + "\0")
    ensures forall k :: end + 1 <= k < dest.Length ==> dest[k] == old(dest[k])
  {
    assert (before + text) + ['\0'] == before + (text + "\0");
    Put(dest, end, '\0');
  }

  lemma AbsIs(v: int, half: Half)
    requires InType(v, half)
    ensures SignedText(v, half) == if v == Least(half) then None else Some(SignedDigits(v))
    ensures Least(half) < 0
  {
  }

  lemma {:induction false} ReversedMore(s: string, c: char)
    ensures Reversed(s + [c]) == [c] + Reversed(s)
  {
    if s == "" {
      assert [c][1..] == "" && s + [c] == [c];
    } else {
      assert (s + [c])[1..] == s[1..] + [c];
      ReversedMore(s[1..], c);
    }
  }
}
