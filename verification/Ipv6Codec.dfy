/**
  to_string and the two parsers of core/include/mms/net/ipv6addr.h, over character buffers that end in NUL.
 */
module Ipv6Codec {
  import opened Options
  import opened Maths
  import opened Ipv6Text

  // Printing.

  /** What is printed from group index on. */
  function Rest(a: Address, start: nat, size: nat, index: nat, upper: bool): string
    requires size >= 1
    decreases 8 - index
  {
    if index >= 8 then ""
    else if index == start then (if index == 0 then ":" else "") + ":" + Rest(a, start, size, index + size, upper)
    else Hex(a[index], upper) + (if index != 7 then ":" else "") + Rest(a, start, size, index + 1, upper)
  }

  lemma {:induction false} RestIsJoin(a: Address, start: nat, size: nat, index: nat, upper: bool)
    requires size >= 1 && index <= 8 && (start < index || start >= 8)
    ensures Rest(a, start, size, index, upper) == Join(a[index..], upper)
    decreases 8 - index
  {
    if index < 8 {
      RestIsJoin(a, start, size, index + 1, upper);
      assert a[index..][1..] == a[index + 1..];
    }
  }

  lemma {:induction false} RestIsLed(a: Address, start: nat, size: nat, index: nat, upper: bool)
    requires size >= 2 && index <= start && 0 < start && start + size <= 8
    ensures Rest(a, start, size, index, upper) == Led(a[index..start], upper) + (":" + Join(a[start + size..], upper))
    decreases 8 - index
  {
    hide Join, Hex;
    if index < start {
      RestIsLed(a, start, size, index + 1, upper);
      assert a[index..start][1..] == a[index + 1..start];
    } else {
      RestIsJoin(a, start, size, index + size, upper);
      assert Led(a[index..start], upper) == "";
    }
  }

  /** The loop of the printer, group by group, gives the text with the double colon. */
  lemma RestIsText(a: Address, start: nat, size: nat, upper: bool)
    requires if size < 2 then size == 1 && start == 8 else start + size <= 8
    ensures Rest(a, start, size, 0, upper) == Text(a, start, size, upper)
  {
    hide Join, Hex, Led, Rest;
    if size < 2 {
      RestIsJoin(a, start, size, 0, upper);
      assert a[0..] == a;
    } else if start == 0 {
      RestAtFront(a, size, upper);
      RestIsJoin(a, start, size, size, upper);
      JoinNothing(a, upper);
      assert "" + "::" == "::";
    } else {
      RestIsLed(a, start, size, 0, upper);
      JoinIsLed(a[..start], upper);
      assert a[0..start] == a[..start];
      TwoColons(Join(a[..start], upper), Join(a[start + size..], upper));
    }
  }

  lemma RestAtFront(a: Address, size: nat, upper: bool)
    requires 1 <= size
    ensures Rest(a, 0, size, 0, upper) == "::" + Rest(a, 0, size, size, upper)
  {
  }

  lemma TwoColons(s: string, t: string)
    ensures (s + ":") + (":" + t) == s + "::" + t
  {
  }

  /** The first loop of to_string: the run to compress. */
  method FindZeros(a: Address) returns (start: nat, size: nat)
    ensures LeftmostLongest(a, start, size, 8)
    ensures start == SearchAll(a, 8).start && size == SearchAll(a, 8).size
  {
    start, size := 8, 1;
    var current := 0;
    for index := 0 to 8
      invariant SearchAll(a, index) == Search(start, size, current) && current <= index
    {
      if a[index] == 0 {
        current := current + 1;
        if current > size {
          size := current;
          start := index + 1 - size;
        }
      } else {
        current := 0;
      }
    }
    SearchFinds(a, 8);
  }

  lemma RestLength(a: Address, start: nat, size: nat, index: nat, upper: bool)
    requires size >= 1 && index < 8
    ensures index == start ==> |Rest(a, start, size, index, upper)| == (if index == 0 then 2 else 1) + |Rest(a, start, size, index + size, upper)|
    ensures index != start ==>
              |Rest(a, start, size, index, upper)| ==
              |Hex(a[index], upper)| + (if index != 7 then 1 else 0) + |Rest(a, start, size, index + 1, upper)|
  {
  }

  /** to_string of an address. */
  method AddressToString(a: Address, upper: bool, terminated: bool, dest: array<char>, at: nat) returns (end: nat)
    requires at + |AddressText(a, upper)| + (if terminated then 1 else 0) <= dest.Length
    modifies dest
    ensures end == at + |AddressText(a, upper)| + (if terminated then 1 else 0)
    ensures dest[..end] == old(dest[..at]) + (AddressText(a, upper) + (if terminated then "\0" else ""))
    ensures forall k :: end <= k < dest.Length ==> dest[k] == old(dest[k])
  {
    hide Rest, Text, Hex;
    var start, size := FindZeros(a);
    RestIsText(a, start, size, upper);
    end := PrintGroups(a, start, size, upper, dest, at);
    if terminated {
      Put(dest, end, '\0');
      end := end + 1;
    }
  }

  /** The second loop of to_string. */
  method PrintGroups(a: Address, start: nat, size: nat, upper: bool, dest: array<char>, at: nat) returns (end: nat)
    requires size >= 1 && at + |Rest(a, start, size, 0, upper)| <= dest.Length
    modifies dest
    ensures end == at + |Rest(a, start, size, 0, upper)|
    ensures dest[..end] == old(dest[..at]) + Rest(a, start, size, 0, upper)
    ensures forall k :: end <= k < dest.Length ==> dest[k] == old(dest[k])
  {
    ghost var before, text := dest[..at], Rest(a, start, size, 0, upper);
    var index := 0;
    end := at;
    assert dest[..end] + text == before + text;
    while index < 8
      invariant end + |Rest(a, start, size, index, upper)| == at + |text|
      invariant dest[..end] + Rest(a, start, size, index, upper) == before + text
      invariant forall k :: end <= k < dest.Length ==> dest[k] == old(dest[k])
      decreases 8 - index
    {
      end := PrintGroup(a, start, size, upper, index, dest, end);
      index := if index == start then index + size else index + 1;
    }
    assert Rest(a, start, size, index, upper) == "";
    assert dest[..end] + "" == dest[..end];
  }

  /** One turn of that loop. */
  method PrintGroup(a: Address, start: nat, size: nat, upper: bool, index: nat, dest: array<char>, at: nat) returns (end: nat)
    requires size >= 1 && index < 8 && at + |Rest(a, start, size, index, upper)| <= dest.Length
    modifies dest
    ensures var next := Rest(a, start, size, if index == start then index + size else index + 1, upper);
            && end + |next| == at + |Rest(a, start, size, index, upper)|
            && dest[..end] + next == old(dest[..at]) + Rest(a, start, size, index, upper)
    ensures forall k :: end <= k < dest.Length ==> dest[k] == old(dest[k])
  {
    hide Hex;
    RestLength(a, start, size, index, upper);
    end := at;
    if index == start {
      if index == 0 {
        Put(dest, end, ':');
        end := end + 1;
      }
      Put(dest, end, ':');
      end := end + 1;
    } else {
      end := PrintHex(a[index], upper, dest, end);
      if index != 7 {
        Put(dest, end, ':');
        end := end + 1;
      }
    }
  }

  method PrintHex(g: Group, upper: bool, dest: array<char>, at: nat) returns (end: nat)
    requires at + |Hex(g, upper)| <= dest.Length
    modifies dest
    ensures end == at + |Hex(g, upper)| && dest[..end] == old(dest[..at]) + Hex(g, upper)
    ensures forall k :: end <= k < dest.Length ==> dest[k] == old(dest[k])
  {
    end := ToString(g, 16, upper, false, dest, at);
  }

  // Parsing.

  /** Where the text ends: at NUL, or with braces at the closing bracket. */
  function Stop(src: string, braces: bool): (n: nat)
    requires '\0' in src
    ensures n < |src|
  {
    if src[0] == '\0' || (braces && src[0] == ']') then 0 else 1 + Stop(src[1..], braces)
  }

  lemma StopNext(src: string, i: nat, braces: bool)
    requires i < |src| && '\0' in src[i..]
    ensures if src[i] == '\0' || (braces && src[i] == ']') then Stop(src[i..], braces) == 0
            else '\0' in src[i + 1..] && Stop(src[i..], braces) == 1 + Stop(src[i + 1..], braces)
  {
    assert src[i..][1..] == src[i + 1..];
  }

  lemma CountNext(c: Count, src: string, i: nat, j: nat)
    requires i <= j < |src|
    ensures CountAll(c, src[i..j + 1]) == CountStep(CountAll(c, src[i..j]), src[j])
  {
    assert src[i..j + 1] == src[i..j] + [src[j]];
    CountAppend(c, src[i..j], [src[j]]);
    assert [src[j]][1..] == "";
  }

  lemma FillNext(f: Fill, src: string, i: nat, j: nat, start: nat, skip: int)
    requires i <= j < |src|
    ensures FillAll(f, src[i..j + 1], start, skip) == FillStep(FillAll(f, src[i..j], start, skip), src[j], start, skip)
  {
    assert src[i..j + 1] == src[i..j] + [src[j]];
    FillAppend(f, src[i..j], [src[j]], start, skip);
    assert [src[j]][1..] == "";
  }

  /** The first pass. */
  method CountColons(src: string, from: nat, braces: bool) returns (start: nat, pos: nat)
    requires from <= |src| && '\0' in src[from..]
    ensures var n := Stop(src[from..], braces);
            exists last :: CountAll(Count(8, false, 0), src[from..from + n]) == Count(start, last, pos)
  {
    hide CountAll, Stop;
    start, pos := 8, 0;
    var last := false;
    var i := from;
    assert src[from..from] == "" && CountAll(Count(8, false, 0), "") == Count(8, false, 0) by { CountNone(); }
    while true
      invariant from <= i < |src| && '\0' in src[i..]
      invariant i + Stop(src[i..], braces) == from + Stop(src[from..], braces)
      invariant CountAll(Count(8, false, 0), src[from..i]) == Count(start, last, pos)
      decreases |src| - i
    {
      StopNext(src, i, braces);
      if src[i] == '\0' || (braces && src[i] == ']') {
        break;
      }
      CountNext(Count(8, false, 0), src, from, i);
      if src[i] == ':' {
        if last {
          start := pos;
        }
        last := true;
        pos := pos + 1;
      } else {
        last := false;
      }
      i := i + 1;
    }
  }

  lemma CountNone()
    ensures CountAll(Count(8, false, 0), "") == Count(8, false, 0)
  {
  }

  lemma FillNone(start: nat, skip: int)
    ensures FillAll(Fill(NO_GROUPS, 0, 0, true), "", start, skip) == Fill(NO_GROUPS, 0, 0, true)
  {
  }

  lemma {:induction false} FillStaysBad(f: Fill, t: string, start: nat, skip: int)
    requires !f.ok
    ensures FillAll(f, t, start, skip) == f
    decreases |t|
  {
    if t != "" {
      FillStaysBad(f, t[1..], start, skip);
    }
  }

  /** The second pass; len counts the terminator. */
  method FillGroups(src: string, from: nat, braces: bool, start: nat, skip: int) returns (ok: bool, addr: Address, pos: int, hexval: nat, len: nat)
    requires from <= |src| && '\0' in src[from..]
    ensures var n := Stop(src[from..], braces);
            var f := FillAll(Fill(NO_GROUPS, 0, 0, true), src[from..from + n], start, skip);
            if ok then f == Fill(addr, pos, hexval, true) && len == n + 1 else !f.ok
  {
    hide FillAll, Stop;
    ghost var zero, n := Fill(NO_GROUPS, 0, 0, true), Stop(src[from..], braces);
    ok, addr, pos, hexval := true, NO_GROUPS, 0, 0;
    var i := from;
    assert src[from..from] == "";
    FillNone(start, skip);
    while true
      invariant from <= i < |src| && '\0' in src[i..] && i + Stop(src[i..], braces) == from + n
      invariant ok && FillAll(zero, src[from..i], start, skip) == Fill(addr, pos, hexval, true)
      decreases |src| - i
    {
      StopNext(src, i, braces);
      if src[i] == '\0' || (braces && src[i] == ']') {
        break;
      }
      FillNext(zero, src, from, i, start, skip);
      if src[i] == ':' {
        if !(0 <= pos < 8) {
          BadFromHere(zero, src, from, i + 1, n, start, skip);
          return false, addr, pos, hexval, 0;
        }
        addr := addr[pos := hexval % 0x1_0000];
        if pos == start {
          pos := pos + skip;
        } else {
          pos := pos + 1;
          hexval := 0;
        }
      } else {
        hexval := (hexval * 16 + CharToInt(src[i])) % 0x1_0000;
      }
      i := i + 1;
    }
    len := i + 1 - from;
  }

  lemma BadFromHere(f: Fill, src: string, from: nat, i: nat, n: nat, start: nat, skip: int)
    requires from <= i <= from + n <= |src| && !FillAll(f, src[from..i], start, skip).ok
    ensures !FillAll(f, src[from..from + n], start, skip).ok
  {
    assert src[from..from + n] == src[from..i] + src[i..from + n];
    FillAppend(f, src[from..i], src[i..from + n], start, skip);
    FillStaysBad(FillAll(f, src[from..i], start, skip), src[i..from + n], start, skip);
  }

  /**
    to_ipv6_addr_t: ok is false where the source writes outside the groups or fails its assertion. The skip
    is a difference of unsigned numbers there; where it would wrap, the next write is outside as well.
   */
  method ToIpv6Addr(src: string, from: nat, braces: bool) returns (ok: bool, addr: Address, len: nat)
    requires from <= |src| && '\0' in src[from..]
    ensures var n := Stop(src[from..], braces);
            Parse(src[from..from + n]) == (if ok then Some(addr) else None) && (ok ==> len == n + 1)
  {
    hide FillAll, CountAll, Stop;
    var start, colons := CountColons(src, from, braces);
    var skip: int := 8 - colons as int;
    var pos, hexval;
    ok, addr, pos, hexval, len := FillGroups(src, from, braces, start, skip);
    ok := ok && pos == 7;
    if ok {
      addr := addr[7 := hexval % 0x1_0000];
    }
  }

  /** to_uint: the first digit is taken as it is, which is what reading it on top of zero gives. */
  method ToUint(src: string, from: nat, radix: Radix, w: Width) returns (val: nat, len: nat)
    requires from <= |src| && '\0' in src[from..]
    ensures var n := Stop(src[from..], false);
            val == Read(0, src[from..from + n], radix, w) < w && len == n + 1
  {
    hide Stop, Read, CharToInt;
    ghost var stop := from + Stop(src[from..], false);
    StopIs(src, from);
    var i := from;
    val := 0;
    assert src[from..from] == "";
    ReadOne(0, src, from, from, radix, w);
    if src[i] != '\0' {
      val := CharToInt(src[i]);
      NoWrap(val, w);
      assert 0 * radix + val == val;
      i := i + 1;
      while src[i] != '\0'
        invariant from <= i <= stop && val == Read(0, src[from..i], radix, w) < w
        decreases stop - i
      {
        ReadOne(0, src, from, i, radix, w);
        val := (val * radix + CharToInt(src[i])) % w;
        i := i + 1;
      }
    }
    len := i + 1 - from;
  }

  /** Without braces the text ends at its first NUL. */
  lemma {:induction false} StopIs(src: string, from: nat)
    requires from <= |src| && '\0' in src[from..]
    ensures var stop := from + Stop(src[from..], false);
            stop < |src| && src[stop] == '\0' && forall k :: from <= k < stop ==> src[k] != '\0'
    decreases |src| - from
  {
    hide Stop;
    StopNext(src, from, false);
    if src[from] != '\0' {
      StopIs(src, from + 1);
    }
  }

  lemma ReadOne(v: nat, src: string, i: nat, j: nat, radix: Radix, w: Width)
    requires i <= j < |src|
    ensures Read(v, src[i..i], radix, w) == v
    ensures Read(v, src[i..j + 1], radix, w) == (Read(v, src[i..j], radix, w) * radix + CharToInt(src[j])) % w
  {
    assert src[i..j + 1] == src[i..j] + [src[j]];
    ReadAppend(v, src[i..j], [src[j]], radix, w);
    assert [src[j]][1..] == "";
  }

  // Socket addresses.

  datatype SocketAddress = SocketAddress(addr: Address, port: Group)

  function SocketText(sa: SocketAddress, upper: bool): string {
    "[" + AddressText(sa.addr, upper) + "]:" + Digits(sa.port, 10, upper)
  }

  /** The 48 bytes of ipv6_socket_addr_t_max_hex_string hold every socket address and its NUL. */
  lemma SocketTextFits(sa: SocketAddress, upper: bool)
    ensures |SocketText(sa, upper)| + 1 <= 48
  {
    AddressTextFits(sa.addr, upper);
    assert Power(10, 2) == 100;
    assert Power(10, 5) == 100000;
    LengthBound(sa.port, 10, upper, 5);
  }

  /** to_string of a socket address. */
  method SocketToString(sa: SocketAddress, upper: bool, dest: array<char>) returns (end: nat)
    requires dest.Length >= 48
    modifies dest
    ensures end <= 48 && dest[..end] == SocketText(sa, upper) + "\0"
  {
    SocketTextFits(sa, upper);
    ghost var addr, port := AddressText(sa.addr, upper), Digits(sa.port, 10, upper);
    assert SocketText(sa, upper) == "[" + addr + "]:" + port;
    hide *;
    Put(dest, 0, '[');
    assert dest[..1] == "[";
    end := AddressToString(sa.addr, upper, false, dest, 1);
    Put(dest, end, ']');
    Put(dest, end + 1, ':');
    SocketFront(addr);
    end := ToString(sa.port, 10, upper, true, dest, end + 2);
    SocketBack("[" + addr + "]:", port);
  }

  lemma SocketFront(addr: string)
    ensures "[" + (addr + "") + [']'] + [':'] == "[" + addr + "]:"
  {
  }

  lemma SocketBack(front: string, port: string)
    ensures front + (port + "\0") == front + port + "\0"
  {
  }

  /** What the socket parser makes of a text: None where the source reads past its end or the address is malformed. */
  function ParseSocket(src: string): Option<SocketAddress> {
    if src == "" || '\0' !in src[1..] then None else
      var n := Stop(src[1..], true);
      match Parse(src[1..1 + n])
      case None => None
      case Some(addr) =>
        if |src| < 3 + n || '\0' !in src[3 + n..] then None
        else Some(SocketAddress(addr, Read(0, src[3 + n..3 + n + Stop(src[3 + n..], false)], 10, WORD16)))
  }

  /** Where the port begins: behind the bracket that opens, the address, the bracket that closes, and the colon. */
  function PortStart(src: string): nat {
    if src == "" || '\0' !in src[1..] then 0 else 3 + Stop(src[1..], true)
  }

  lemma {:induction false} StopAfter(t: string, c: char, rest: string, braces: bool)
    requires '\0' !in t && (braces ==> ']' !in t) && (c == '\0' || (braces && c == ']')) && '\0' in [c] + rest
    ensures '\0' in t + ([c] + rest) && Stop(t + ([c] + rest), braces) == |t|
    ensures (t + ([c] + rest))[..|t|] == t && (t + ([c] + rest))[|t| + 1..] == rest
  {
    var s := t + ([c] + rest);
    assert forall x :: x in [c] + rest ==> x in s;
    if t == "" {
      assert s == [c] + rest;
    } else {
      assert s[1..] == t[1..] + ([c] + rest);
      StopAfter(t[1..], c, rest, braces);
    }
  }

  /** Parsing undoes printing for every socket address. */
  lemma ParseSocketText(sa: SocketAddress, upper: bool)
    ensures ParseSocket(SocketText(sa, upper) + "\0") == Some(sa)
  {
    hide *;
    var a, port := AddressText(sa.addr, upper), Digits(sa.port, 10, upper);
    var src, rest := SocketText(sa, upper) + "\0", ":" + (port + "\0");
    SocketTextParts(sa, upper, a, port);
    AddressBack(sa.addr, upper, src, rest);
    PortBack(sa.port, upper, src, 3 + |a|);
    ParsedParts(src, |a|, sa);
  }

  lemma ParsedParts(src: string, n: nat, sa: SocketAddress)
    requires 3 + n <= |src| && '\0' in src[1..] && Stop(src[1..], true) == n && Parse(src[1..1 + n]) == Some(sa.addr)
    requires '\0' in src[3 + n..] && Read(0, src[3 + n..3 + n + Stop(src[3 + n..], false)], 10, WORD16) == sa.port
    ensures ParseSocket(src) == Some(sa)
  {
    hide Parse, Stop, Read;
  }

  lemma SocketTextParts(sa: SocketAddress, upper: bool, a: string, port: string)
    requires a == AddressText(sa.addr, upper) && port == Digits(sa.port, 10, upper)
    ensures var src, rest := SocketText(sa, upper) + "\0", ":" + (port + "\0");
            |src| >= 3 + |a| && src[1..] == a + ("]" + rest) && '\0' in rest && src[3 + |a|..] == port + "\0"
  {
    var rest, front := ":" + (port + "\0"), "[" + a + "]:";
    assert SocketText(sa, upper) + "\0" == front + port + "\0";
    hide *;
    assert rest[|rest| - 1] == '\0';
    assert |front| == 3 + |a| && front + port + "\0" == front + (port + "\0");
    DropFront(front, port + "\0");
    assert front + (port + "\0") == "[" + (a + ("]" + rest));
    DropFront("[", a + ("]" + rest));
  }

  lemma DropFront(s: string, t: string)
    ensures (s + t)[|s|..] == t
  {
  }

  lemma AddressBack(addr: Address, upper: bool, src: string, rest: string)
    requires src != "" && src[1..] == AddressText(addr, upper) + ("]" + rest) && '\0' in rest
    ensures '\0' in src[1..] && Stop(src[1..], true) == |AddressText(addr, upper)|
    ensures Parse(src[1..1 + Stop(src[1..], true)]) == Some(addr)
  {
    hide AddressText, Parse, Stop;
    var a := AddressText(addr, upper);
    TextIsPlain(addr, upper);
    StopAfter(a, ']', rest, true);
    assert src[1..1 + |a|] == src[1..][..|a|];
    ParseAddressText(addr, upper);
  }

  lemma PortBack(n: Group, upper: bool, src: string, p: nat)
    requires p <= |src| && src[p..] == Digits(n, 10, upper) + "\0"
    ensures '\0' in src[p..] && Read(0, src[p..p + Stop(src[p..], false)], 10, WORD16) == n
  {
    hide Digits, Stop, Read;
    var port := Digits(n, 10, upper);
    assert src[p..] == port + (['\0'] + "");
    DecimalIsPlain(n, upper);
    StopAfter(port, '\0', "", false);
    assert src[p..p + |port|] == src[p..][..|port|];
    ReadDigits(n, 10, upper, WORD16);
  }

  lemma DecimalIsPlain(n: nat, upper: bool)
    ensures '\0' !in Digits(n, 10, upper)
  {
    OnlyDigits(n, 10, upper);
  }

  /** The same for an address alone: what to_ipv6_addr_t reads from what to_string wrote. */
  lemma ParseAddressBuffer(a: Address, upper: bool)
    ensures var src := AddressText(a, upper) + "\0";
            '\0' in src && Parse(src[..Stop(src, false)]) == Some(a)
  {
    hide AddressText, Parse, Stop;
    TextIsPlain(a, upper);
    assert "\0" == ['\0'] + "" && '\0' in "\0";
    StopAfter(AddressText(a, upper), '\0', "", false);
    ParseAddressText(a, upper);
  }

  /** to_ipv6_socket_addr_t. */
  method ToIpv6SocketAddr(src: string) returns (ok: bool, sa: SocketAddress, len: nat)
    requires '\0' in src
    ensures ParseSocket(src) == if ok then Some(sa) else None
    ensures ok ==> PortStart(src) <= |src| && '\0' in src[PortStart(src)..] &&
                   len == PortStart(src) + Stop(src[PortStart(src)..], false) + 1
  {
    hide Parse, Stop, Read;
    ok, sa, len := false, SocketAddress(NO_GROUPS, 0), 0;
    if '\0' !in src[1..] { return; }
    var addr, size, port;
    ok, addr, size := ToIpv6Addr(src, 1, true);
    if !ok { return; }
    var p := 1 + size + 1;
    if p > |src| || '\0' !in src[p..] { return false, sa, 0; }
    port, size := ToUint(src, p, 10, WORD16);
    ok, sa, len := true, SocketAddress(addr, port), p + size;
  }
}
