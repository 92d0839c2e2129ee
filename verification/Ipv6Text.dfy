/**
  The text form of IPv6 addresses in core/include/mms/net/ipv6addr.h: which run of zeros is compressed, what
  the two passes of the parser compute, and that parsing undoes printing.
 */
module Ipv6Text {
  import opened Options
  import opened Maths

  type Group = n: nat | n < 0x1_0000

  /** The eight groups, in host byte order. */
  type Address = a: seq<Group> | |a| == 8 witness [0, 0, 0, 0, 0, 0, 0, 0]

  // Which zeros are compressed.

  /** What the search has after some groups: the best run so far, and the run that ends here. */
  datatype Search = Search(start: nat, size: nat, current: nat)

  function SearchStep(s: Search, g: Group, index: nat): Search
    requires s.current <= index
  {
    if g != 0 then s.(current := 0) else
      var size := s.current + 1;
      if size > s.size then Search(index + 1 - size, size, size) else s.(current := size)
  }

  function SearchAll(a: Address, k: nat): (s: Search)
    requires k <= 8
    ensures s.current <= k
  {
    if k == 0 then Search(8, 1, 0) else SearchStep(SearchAll(a, k - 1), a[k - 1], k - 1)
  }

  ghost predicate ZeroRun(a: Address, from: nat, size: nat, k: nat)
    requires k <= 8
  {
    from + size <= k && forall i :: from <= i < from + size ==> a[i] == 0
  }

  /** start and size are the leftmost longest run of at least two zeros among the first k groups, if there is one. */
  ghost predicate LeftmostLongest(a: Address, start: nat, size: nat, k: nat)
    requires k <= 8
  {
    && (if size < 2 then size == 1 && start == 8 else ZeroRun(a, start, size, k))
    && (forall from: nat, n: nat :: ZeroRun(a, from, n, k) && n >= 2 ==> n <= size && (n == size ==> start <= from))
  }

  /** current is the number of zeros right before group k. */
  ghost predicate EndsIn(a: Address, current: nat, k: nat)
    requires k <= 8
  {
    && current <= k && ZeroRun(a, k - current, current, k)
    && (current < k ==> a[k - current - 1] != 0)
  }

  lemma SearchNext(a: Address, k: nat)
    requires k <= 8
    ensures k == 0 ==> SearchAll(a, k) == Search(8, 1, 0)
    ensures k > 0 ==>
              var p, s := SearchAll(a, k - 1), SearchAll(a, k);
              && s.current == (if a[k - 1] == 0 then p.current + 1 else 0)
              && (s.current > p.size ==> s.size == s.current && s.start == k - s.size)
              && (s.current <= p.size ==> s.size == p.size && s.start == p.start)
  {
  }

  lemma BestIsRun(a: Address, k: nat, p: Search, s: Search)
    requires 0 < k <= 8 && EndsIn(a, p.current, k - 1) && LeftmostLongest(a, p.start, p.size, k - 1)
    requires s.current == (if a[k - 1] == 0 then p.current + 1 else 0)
    requires s.current > p.size ==> s.size == s.current && s.start == k - s.size
    requires s.current <= p.size ==> s.size == p.size && s.start == p.start
    ensures EndsIn(a, s.current, k)
    ensures if s.size < 2 then s.size == 1 && s.start == 8 else ZeroRun(a, s.start, s.size, k)
  {
  }

  lemma {:induction false} SearchFinds(a: Address, k: nat)
    requires k <= 8
    ensures var s := SearchAll(a, k); LeftmostLongest(a, s.start, s.size, k) && EndsIn(a, s.current, k)
  {
    hide SearchStep, SearchAll;
    SearchNext(a, k);
    if k > 0 {
      SearchFinds(a, k - 1);
      var p, s := SearchAll(a, k - 1), SearchAll(a, k);
      forall from: nat, n: nat | ZeroRun(a, from, n, k) && n >= 2
        ensures n <= s.size && (n == s.size ==> s.start <= from)
      {
        if from + n <= k - 1 {
          assert ZeroRun(a, from, n, k - 1);
        } else {
          assert a[k - 1] == 0;
          assert from >= k - 1 - p.current;
          if n > 2 { assert ZeroRun(a, from, n - 1, k - 1); }
        }
      }
      BestIsRun(a, k, p, s);
    }
  }

  /** There is only one such run. */
  lemma LeftmostLongestIsUnique(a: Address, start: nat, size: nat, start': nat, size': nat)
    requires LeftmostLongest(a, start, size, 8) && LeftmostLongest(a, start', size', 8)
    ensures start == start' && size == size'
  {
    assert size >= 2 ==> ZeroRun(a, start, size, 8);
    assert size' >= 2 ==> ZeroRun(a, start', size', 8);
  }

  // The text.

  function Hex(g: Group, upper: bool): (s: string)
    ensures s != ""
  {
    Digits(g, 16, upper)
  }

  function Join(gs: seq<Group>, upper: bool): string {
    if gs == [] then "" else if |gs| == 1 then Hex(gs[0], upper) else Hex(gs[0], upper) + ":" + Join(gs[1..], upper)
  }

  /** RFC 5952, section 4: the groups without leading zeros, and a double colon for one run of zeros. */
  function Text(a: Address, start: nat, size: nat, upper: bool): string
    requires size >= 2 ==> start + size <= 8
  {
    if size < 2 then Join(a, upper) else Join(a[..start], upper) + "::" + Join(a[start + size..], upper)
  }

  function AddressText(a: Address, upper: bool): string {
    SearchFinds(a, 8);
    Text(a, SearchAll(a, 8).start, SearchAll(a, 8).size, upper)
  }

  /**
    What is printed, told from the zeros of the address alone: the leftmost longest run of two or more zero
    groups is left out between two colons, and without such a run all groups are there (section 4.2 of RFC 5952).
   */
  lemma AddressTextIs(a: Address, start: nat, size: nat, upper: bool)
    requires LeftmostLongest(a, start, size, 8)
    ensures if size < 2 then AddressText(a, upper) == Join(a, upper)
            else start + size <= 8 && AddressText(a, upper) == Join(a[..start], upper) + "::" + Join(a[start + size..], upper)
  {
    hide Join, LeftmostLongest;
    SearchFinds(a, 8);
    LeftmostLongestIsUnique(a, start, size, SearchAll(a, 8).start, SearchAll(a, 8).size);
    RunEnds(a, start, size);
  }

  lemma RunEnds(a: Address, start: nat, size: nat)
    requires LeftmostLongest(a, start, size, 8)
    ensures size >= 2 ==> start + size <= 8
  {
  }

  /** The address of the own host is two colons and a one, the unspecified address two colons; and one of each letter case. */
  lemma ShortTexts(upper: bool)
    ensures AddressText([0, 0, 0, 0, 0, 0, 0, 1], upper) == "::1" && AddressText(NO_GROUPS, upper) == "::"
    ensures AddressText([0xff02, 0, 0, 0, 0, 0, 0xa, 0], upper) == if upper then "FF02::A:0" else "ff02::a:0"
  {
    hide AddressText;
    var own: Address := [0, 0, 0, 0, 0, 0, 0, 1];
    assert LeftmostLongest(own, 0, 7, 8) by { assert own[7] == 1; }
    assert LeftmostLongest(NO_GROUPS, 0, 8, 8);
    AddressTextIs(own, 0, 7, upper);
    AddressTextIs(NO_GROUPS, 0, 8, upper);
    assert own[..0] == [] && own[7..] == [1] && NO_GROUPS[..0] == [] && NO_GROUPS[8..] == [];
    assert Join([1], upper) == Hex(1, upper) == "1" && Join([], upper) == "";
    CasesOfText(upper);
  }

  lemma CasesOfText(upper: bool)
    ensures AddressText([0xff02, 0, 0, 0, 0, 0, 0xa, 0], upper) == if upper then "FF02::A:0" else "ff02::a:0"
  {
    hide AddressText, Join;
    var a: Address := [0xff02, 0, 0, 0, 0, 0, 0xa, 0];
    assert LeftmostLongest(a, 1, 5, 8) by { assert a[0] != 0 && a[6] != 0; }
    AddressTextIs(a, 1, 5, upper);
    assert a[..1] == [0xff02] && a[6..] == [0xa, 0] && [0xa, 0][1..] == [0];
    JoinOne(0xff02, upper);
    JoinOne(0, upper);
    JoinMore([0xa, 0], upper);
    HexTexts(upper);
  }

  lemma JoinOne(g: Group, upper: bool)
    ensures Join([g], upper) == Hex(g, upper)
  {
  }

  lemma HexTexts(upper: bool)
    ensures Hex(0, upper) == "0" && Hex(0xa, upper) == (if upper then "A" else "a")
    ensures Hex(0xff02, upper) == if upper then "FF02" else "ff02"
  {
    assert Digits(0xf, 16, upper) == if upper then "F" else "f";
    assert Digits(0xff, 16, upper) == if upper then "FF" else "ff";
    assert Digits(0xff0, 16, upper) == if upper then "FF0" else "ff0";
  }

  lemma {:induction false} JoinLength(gs: seq<Group>, upper: bool)
    ensures |Join(gs, upper)| <= if gs == [] then 0 else 5 * |gs| - 1
  {
    if gs != [] {
      assert Power(16, 4) == 65536;
      LengthBound(gs[0], 16, upper, 4);
      JoinLength(gs[1..], upper);
    }
  }

  /** The 40 bytes of ipv6_addr_t_max_hex_string hold every address and its NUL. */
  lemma AddressTextFits(a: Address, upper: bool)
    ensures |AddressText(a, upper)| + 1 <= 40
  {
    SearchFinds(a, 8);
    var s := SearchAll(a, 8);
    JoinLength(a, upper);
    if s.size >= 2 {
      JoinLength(a[..s.start], upper);
      JoinLength(a[s.start + s.size..], upper);
    }
  }

  // The parser: a first pass over the text counts colons, a second one fills the groups.

  /** The first pass: where the double colon is (8 if there is none) and how many colons there are. */
  datatype Count = Count(start: nat, last: bool, pos: nat)

  function CountStep(c: Count, ch: char): Count {
    if ch == ':' then Count(if c.last then c.pos else c.start, true, c.pos + 1) else c.(last := false)
  }

  function CountAll(c: Count, t: string): Count
    decreases |t|
  {
    if t == "" then c else CountAll(CountStep(c, t[0]), t[1..])
  }

  /** The second pass; ok becomes false where the source writes outside the eight groups. */
  datatype Fill = Fill(addr: Address, pos: int, hexval: nat, ok: bool)

  function FillStep(f: Fill, ch: char, start: nat, skip: int): Fill {
    if !f.ok then f
    else if ch == ':' then
      if !(0 <= f.pos < 8) then f.(ok := false)
      else
        var addr := f.addr[f.pos := f.hexval % 0x1_0000];
        if f.pos == start then Fill(addr, f.pos + skip, f.hexval, true) else Fill(addr, f.pos + 1, 0, true)
    else f.(hexval := (f.hexval * 16 + CharToInt(ch)) % 0x1_0000)
  }

  function FillAll(f: Fill, t: string, start: nat, skip: int): Fill
    decreases |t|
  {
    if t == "" then f else FillAll(FillStep(f, t[0], start, skip), t[1..], start, skip)
  }

  const NO_GROUPS: Address := [0, 0, 0, 0, 0, 0, 0, 0]

  /** The address of a text; None where the source writes out of bounds or fails its assertion. */
  function Parse(t: string): Option<Address> {
    var c := CountAll(Count(8, false, 0), t);
    var f := FillAll(Fill(NO_GROUPS, 0, 0, true), t, c.start, 8 - c.pos);
    if f.ok && f.pos == 7 then
      var addr: Address := f.addr[7 := f.hexval % 0x1_0000];
      Some(addr)
    else None
  }

  lemma {:induction false} CountAppend(c: Count, s: string, t: string)
    ensures CountAll(c, s + t) == CountAll(CountAll(c, s), t)
    decreases |s|
  {
    if s == "" {
      assert s + t == t;
    } else {
      assert (s + t)[1..] == s[1..] + t;
      CountAppend(CountStep(c, s[0]), s[1..], t);
    }
  }

  lemma {:induction false} FillAppend(f: Fill, s: string, t: string, start: nat, skip: int)
    ensures FillAll(f, s + t, start, skip) == FillAll(FillAll(f, s, start, skip), t, start, skip)
    decreases |s|
  {
    if s == "" {
      assert s + t == t;
    } else {
      assert (s + t)[1..] == s[1..] + t;
      FillAppend(FillStep(f, s[0], start, skip), s[1..], t, start, skip);
    }
  }

  // Over the digits of a group.

  lemma {:induction false} CountPlain(c: Count, s: string)
    requires ':' !in s
    ensures CountAll(c, s) == if s == "" then c else c.(last := false)
    decreases |s|
  {
    if s != "" {
      CountPlain(c.(last := false), s[1..]);
    }
  }

  lemma {:induction false} FillPlain(f: Fill, s: string, start: nat, skip: int)
    requires ':' !in s && f.ok
    ensures FillAll(f, s, start, skip) == f.(hexval := Read(f.hexval, s, 16, WORD16))
    decreases |s|
  {
    if s != "" {
      FillPlain(FillStep(f, s[0], start, skip), s[1..], start, skip);
    }
  }

  lemma HexIsPlain(g: Group, upper: bool)
    ensures ':' !in Hex(g, upper) && ']' !in Hex(g, upper) && '\0' !in Hex(g, upper)
    ensures Read(0, Hex(g, upper), 16, WORD16) == g
  {
    OnlyDigits(g, 16, upper);
    ReadDigits(g, 16, upper, WORD16);
  }

  // Over groups with a colon behind each.

  function Led(gs: seq<Group>, upper: bool): string {
    if gs == [] then "" else Hex(gs[0], upper) + ":" + Led(gs[1..], upper)
  }

  lemma {:induction false} JoinIsLed(gs: seq<Group>, upper: bool)
    requires gs != []
    ensures Join(gs, upper) == Led(gs[..|gs| - 1], upper) + Hex(gs[|gs| - 1], upper)
    ensures Join(gs, upper) + ":" == Led(gs, upper)
  {
    hide Join, Led, Hex;
    var front, last := gs[..|gs| - 1], Hex(gs[|gs| - 1], upper);
    JoinMore(gs, upper);
    LedMore(gs, upper);
    if |gs| > 1 {
      var hex, rest := Hex(gs[0], upper), gs[1..];
      JoinIsLed(rest, upper);
      LedMore(front, upper);
      assert front[1..] == rest[..|rest| - 1];
      Glue(hex, Led(front[1..], upper), last);
      Glue(hex, Join(rest, upper), ":");
    } else {
      LedNothing(front, upper);
      LedNothing(gs[1..], upper);
      assert "" + last == last && last + ":" + "" == last + ":";
    }
  }

  lemma JoinMore(gs: seq<Group>, upper: bool)
    requires gs != []
    ensures Join(gs, upper) == if |gs| == 1 then Hex(gs[0], upper) else Hex(gs[0], upper) + ":" + Join(gs[1..], upper)
  {
  }

  lemma LedMore(gs: seq<Group>, upper: bool)
    requires gs != []
    ensures Led(gs, upper) == Hex(gs[0], upper) + ":" + Led(gs[1..], upper)
  {
  }

  lemma LedNothing(gs: seq<Group>, upper: bool)
    requires gs == []
    ensures Led(gs, upper) == ""
  {
  }

  lemma Glue(hex: string, s: string, t: string)
    ensures (hex + ":" + s) + t == hex + ":" + (s + t)
  {
  }

  lemma {:induction false} CountLed(c: Count, gs: seq<Group>, upper: bool)
    ensures CountAll(c, Led(gs, upper)) == if gs == [] then c else Count(c.start, true, c.pos + |gs|)
    decreases |gs|
  {
    if gs != [] {
      var hex := Hex(gs[0], upper);
      HexIsPlain(gs[0], upper);
      CountAppend(c, hex + ":", Led(gs[1..], upper));
      CountAppend(c, hex, ":");
      CountPlain(c, hex);
      CountLed(Count(c.start, true, c.pos + 1), gs[1..], upper);
    }
  }

  /** The first j groups of a, then zeros. */
  function Filled(a: Address, j: nat): Address
    requires j <= 8
  {
    a[..j] + NO_GROUPS[j..]
  }

  lemma FilledStep(a: Address, j: nat)
    requires j < 8
    ensures Filled(a, j)[j := a[j]] == Filled(a, j + 1)
    ensures Filled(a, 8) == a && Filled(a, 0) == NO_GROUPS
  {
  }

  lemma FilledZeros(a: Address, i: nat, j: nat)
    requires i <= j <= 8 && forall k :: i <= k < j ==> a[k] == 0
    ensures Filled(a, j) == Filled(a, i)
  {
  }

  lemma FillGroup(f: Fill, g: Group, upper: bool, start: nat, skip: int)
    requires f.ok && 0 <= f.pos < 8 && f.pos != start && f.hexval == 0
    ensures FillAll(f, Hex(g, upper) + ":", start, skip) == Fill(f.addr[f.pos := g], f.pos + 1, 0, true)
  {
    HexIsPlain(g, upper);
    FillAppend(f, Hex(g, upper), ":", start, skip);
    FillPlain(f, Hex(g, upper), start, skip);
    OneColon(f.(hexval := g), start, skip);
  }

  lemma OneColon(f: Fill, start: nat, skip: int)
    ensures FillAll(f, ":", start, skip) == FillStep(f, ':', start, skip)
  {
    assert ":"[1..] == "";
  }

  lemma FillNothing(f: Fill, start: nat, skip: int)
    ensures FillAll(f, "", start, skip) == f
  {
  }

  lemma LedSlice(a: Address, i: nat, j: nat, upper: bool)
    requires i < j <= 8
    ensures Led(a[i..j], upper) == Hex(a[i], upper) + ":" + Led(a[i + 1..j], upper)
  {
    assert a[i..j][1..] == a[i + 1..j];
  }

  lemma {:induction false} FillLed(a: Address, i: nat, j: nat, upper: bool, start: nat, skip: int)
    requires i <= j <= 8 && !(i <= start < j)
    ensures FillAll(Fill(Filled(a, i), i, 0, true), Led(a[i..j], upper), start, skip) == Fill(Filled(a, j), j, 0, true)
    decreases j - i
  {
    hide Filled, FillAll, Hex, Led;
    var f := Fill(Filled(a, i), i, 0, true);
    if i == j {
      LedNothing(a[i..j], upper);
      FillNothing(f, start, skip);
    } else {
      LedSlice(a, i, j, upper);
      FillAppend(f, Hex(a[i], upper) + ":", Led(a[i + 1..j], upper), start, skip);
      FillGroup(f, a[i], upper, start, skip);
      FilledStep(a, i);
      FillLed(a, i + 1, j, upper, start, skip);
    }
  }

  /** The groups from i to the end, the last without a colon, and the final write. */
  lemma FillTail(a: Address, i: nat, upper: bool, start: nat, skip: int)
    requires i < 8 && !(i <= start < 7)
    ensures var f := FillAll(Fill(Filled(a, i), i, 0, true), Join(a[i..], upper), start, skip);
            f.ok && f.pos == 7 && f.addr[7 := f.hexval % 0x1_0000] == a
  {
    hide Filled, FillAll, Hex, Led, Join;
    var f := Fill(Filled(a, i), i, 0, true);
    JoinIsLed(a[i..], upper);
    assert a[i..][..|a[i..]| - 1] == a[i..7] && a[i..][|a[i..]| - 1] == a[7];
    FillAppend(f, Led(a[i..7], upper), Hex(a[7], upper), start, skip);
    FillLed(a, i, 7, upper, start, skip);
    HexIsPlain(a[7], upper);
    FillPlain(Fill(Filled(a, 7), 7, 0, true), Hex(a[7], upper), start, skip);
    FilledStep(a, 7);
  }

  lemma CountTail(c: Count, gs: seq<Group>, upper: bool)
    ensures var d := CountAll(c, Join(gs, upper));
            d.start == c.start && d.pos == c.pos + if gs == [] then 0 else |gs| - 1
  {
    if gs != [] {
      JoinIsLed(gs, upper);
      var front, last := gs[..|gs| - 1], gs[|gs| - 1];
      CountAppend(c, Led(front, upper), Hex(last, upper));
      CountLed(c, front, upper);
      HexIsPlain(last, upper);
      CountPlain(CountAll(c, Led(front, upper)), Hex(last, upper));
    }
  }

  /** The double colon: pre leads to group p with zeros from there to group e, and one more colon follows. */
  lemma ParseAcrossZeros(a: Address, pre: string, p: nat, e: nat, upper: bool)
    requires p < e <= 8 && forall k :: p <= k < e ==> a[k] == 0
    requires CountAll(Count(8, false, 0), pre) == Count(8, true, p)
    requires forall skip :: FillAll(Fill(NO_GROUPS, 0, 0, true), pre, p, skip) == Fill(Filled(a, p), p, 0, true)
    ensures Parse(pre + ":" + Join(a[e..], upper)) == Some(a)
  {
    hide CountAll, FillAll, Filled, Join;
    var tail, zero := Join(a[e..], upper), Fill(NO_GROUPS, 0, 0, true);
    CountAppend(Count(8, false, 0), pre + ":", tail);
    CountAppend(Count(8, false, 0), pre, ":");
    CountColon(Count(8, true, p));
    CountTail(Count(p, true, p + 1), a[e..], upper);
    var skip := 8 - CountAll(Count(8, false, 0), pre + ":" + tail).pos;
    FillAppend(zero, pre + ":", tail, p, skip);
    FillAppend(zero, pre, ":", p, skip);
    OneColon(Fill(Filled(a, p), p, 0, true), p, skip);
    FilledStep(a, p);
    FilledZeros(a, p + 1, e);
    if e < 8 {
      FillTail(a, e, upper, p, skip);
    } else {
      FilledStep(a, 7);
      assert a[7] == 0 && a[7 := 0] == a;
      NothingLeft(a, upper, Fill(Filled(a, p)[p := 0], 7, 0, true), p, skip);
    }
  }

  lemma CountColon(c: Count)
    ensures CountAll(c, ":") == CountStep(c, ':')
  {
    assert ":"[1..] == "";
  }

  lemma NothingLeft(a: Address, upper: bool, f: Fill, start: nat, skip: int)
    ensures Join(a[8..], upper) == "" && FillAll(f, Join(a[8..], upper), start, skip) == f
  {
  }

  /** With zeros at the front: the first colon is read as an empty first group. */
  lemma LeadingColon(a: Address, skip: int)
    requires a[0] == 0
    ensures CountAll(Count(8, false, 0), ":") == Count(8, true, 1)
    ensures FillAll(Fill(NO_GROUPS, 0, 0, true), ":", 1, skip) == Fill(Filled(a, 1), 1, 0, true)
  {
    hide CountAll, FillAll, Filled;
    CountColon(Count(8, false, 0));
    OneColon(Fill(NO_GROUPS, 0, 0, true), 1, skip);
    FilledStep(a, 0);
  }

  lemma ParseCompressed(a: Address, start: nat, size: nat, upper: bool)
    requires size >= 2 && ZeroRun(a, start, size, 8)
    ensures Parse(Text(a, start, size, upper)) == Some(a)
  {
    hide CountAll, FillAll, Filled, Join, Led, Parse;
    var tail := Join(a[start + size..], upper);
    if start == 0 {
      forall skip ensures FillAll(Fill(NO_GROUPS, 0, 0, true), ":", 1, skip) == Fill(Filled(a, 1), 1, 0, true) {
        LeadingColon(a, skip);
      }
      LeadingColon(a, 0);
      ParseAcrossZeros(a, ":", 1, size, upper);
      JoinNothing(a, upper);
      assert Join(a[..0], upper) + "::" + tail == ":" + ":" + tail;
    } else {
      JoinIsLed(a[..start], upper);
      var pre := Led(a[..start], upper);
      CountLed(Count(8, false, 0), a[..start], upper);
      forall skip ensures FillAll(Fill(NO_GROUPS, 0, 0, true), pre, start, skip) == Fill(Filled(a, start), start, 0, true) {
        FilledStep(a, 0);
        FillLed(a, 0, start, upper, start, skip);
        assert a[0..start] == a[..start];
      }
      ParseAcrossZeros(a, pre, start, start + size, upper);
      assert Join(a[..start], upper) + "::" + tail == (Join(a[..start], upper) + ":") + ":" + tail;
    }
  }

  lemma JoinNothing(a: Address, upper: bool)
    ensures Join(a[..0], upper) == ""
  {
  }

  lemma ParsePlain(a: Address, upper: bool)
    ensures Parse(Join(a, upper)) == Some(a)
  {
    hide CountAll, FillAll, Filled, Join;
    CountTail(Count(8, false, 0), a, upper);
    FilledStep(a, 0);
    assert a[0..] == a;
    FillTail(a, 0, upper, 8, 1);
  }

  /** Parsing undoes printing, for every address and in both letter cases. */
  lemma ParseAddressText(a: Address, upper: bool)
    ensures Parse(AddressText(a, upper)) == Some(a)
  {
    hide Parse, Join;
    SearchFinds(a, 8);
    var s := SearchAll(a, 8);
    if s.size >= 2 {
      ParseCompressed(a, s.start, s.size, upper);
    } else {
      ParsePlain(a, upper);
    }
  }

  lemma {:induction false} JoinIsPlain(gs: seq<Group>, upper: bool)
    ensures ']' !in Join(gs, upper) && '\0' !in Join(gs, upper)
  {
    if gs != [] {
      HexIsPlain(gs[0], upper);
      JoinIsPlain(gs[1..], upper);
    }
  }

  lemma TextIsPlain(a: Address, upper: bool)
    ensures ']' !in AddressText(a, upper) && '\0' !in AddressText(a, upper)
  {
    hide Join;
    SearchFinds(a, 8);
    var s := SearchAll(a, 8);
    JoinIsPlain(a, upper);
    if s.size >= 2 {
      JoinIsPlain(a[..s.start], upper);
      JoinIsPlain(a[s.start + s.size..], upper);
    }
  }

  // Texts without a double colon.

  lemma {:induction false} FailedFill(f: Fill, t: string, start: nat, skip: int)
    requires !f.ok
    ensures FillAll(f, t, start, skip) == f
    decreases |t|
  {
    if t != "" {
      FailedFill(f, t[1..], start, skip);
    }
  }

  /** Each colon takes the second pass one group on, or out of the address. */
  lemma {:induction false} LedMoves(f: Fill, gs: seq<Group>, upper: bool, skip: int)
    requires f.ok
    ensures var g := FillAll(f, Led(gs, upper), 8, skip); g.ok ==> g.pos == f.pos + |gs|
    decreases |gs|
  {
    hide FillAll, Led, Hex;
    if gs == [] {
      LedNothing(gs, upper);
      FillNothing(f, 8, skip);
    } else {
      var hex, rest := Hex(gs[0], upper), Led(gs[1..], upper);
      var g := FillStep(f.(hexval := Read(f.hexval, hex, 16, WORD16)), ':', 8, skip);
      LedMore(gs, upper);
      HexIsPlain(gs[0], upper);
      FillAppend(f, hex + ":", rest, 8, skip);
      FillAppend(f, hex, ":", 8, skip);
      FillPlain(f, hex, 8, skip);
      OneColon(f.(hexval := Read(f.hexval, hex, 16, WORD16)), 8, skip);
      if g.ok {
        LedMoves(g, gs[1..], upper, skip);
      } else {
        FailedFill(g, rest, 8, skip);
      }
    }
  }

  /** Groups joined by single colons are an address exactly if there are eight of them. */
  lemma JoinedIsAddressIff(gs: seq<Group>, upper: bool)
    ensures Parse(Join(gs, upper)) == if |gs| == 8 then Some(gs) else None
  {
    hide CountAll, FillAll, Join, Led;
    if |gs| == 8 {
      ParsePlain(gs, upper);
    } else if gs == [] {
      NothingIsNoAddress(upper);
    } else {
      var front, last := gs[..|gs| - 1], gs[|gs| - 1];
      var zero := Fill(NO_GROUPS, 0, 0, true);
      CountTail(Count(8, false, 0), gs, upper);
      var skip := 8 - (|gs| - 1);
      JoinIsLed(gs, upper);
      FillAppend(zero, Led(front, upper), Hex(last, upper), 8, skip);
      LedMoves(zero, front, upper, skip);
      HexIsPlain(last, upper);
      var f := FillAll(zero, Led(front, upper), 8, skip);
      if f.ok {
        FillPlain(f, Hex(last, upper), 8, skip);
      } else {
        FailedFill(f, Hex(last, upper), 8, skip);
      }
    }
  }

  lemma NothingIsNoAddress(upper: bool)
    ensures Parse(Join([], upper)) == None
  {
  }
}
