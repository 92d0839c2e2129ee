/**
  What the address parser of core/include/mms/net/ipv6addr.h makes of any spelling of the groups, printed by the
  server or not: leading zeros, both letter cases, more digits than fit, and a double colon at any place.
 */
module Ipv6Spelling {
  import opened Options
  import opened Maths
  import opened Ipv6Text

  /** A spelled group: hexadecimal digits, at least one. */
  predicate IsGroup(s: string) {
    s != "" && forall c :: c in s ==> IsHex(c)
  }

  predicate AllGroups(ss: seq<string>) {
    forall s :: s in ss ==> IsGroup(s)
  }

  /** What it means; of more than four digits the last sixteen bits count. */
  function GroupOf(s: string): Group {
    match Meant(s, 16)
    case None => 0
    case Some(n) => n % 0x1_0000
  }

  function Values(ss: seq<string>): (gs: seq<Group>)
    ensures |gs| == |ss|
  {
    seq(|ss|, i requires 0 <= i < |ss| => GroupOf(ss[i]))
  }

  /** The groups with a colon behind each. */
  function Colons(ss: seq<string>): string {
    if ss == [] then "" else ss[0] + ":" + Colons(ss[1..])
  }

  /** The groups with a colon between two. */
  function Joined(ss: seq<string>): string {
    if ss == [] then "" else Colons(ss[..|ss| - 1]) + ss[|ss| - 1]
  }

  lemma {:induction false} HexMeans(s: string)
    requires forall c :: c in s ==> IsHex(c)
    ensures Meant(s, 16).Some?
  {
    if s != "" {
      HexMeans(s[..|s| - 1]);
      assert s[|s| - 1] in s;
      HexIsSmall(s[|s| - 1]);
    }
  }

  lemma GroupIsPlain(s: string)
    requires IsGroup(s)
    ensures ':' !in s && Read(0, s, 16, WORD16) == GroupOf(s)
  {
    hide Read, Meant;
    HexMeans(s);
    ReadIsMeant(s, 16, WORD16);
  }

  lemma ColonsMore(ss: seq<string>)
    requires ss != [] && AllGroups(ss)
    ensures Colons(ss) == ss[0] + ":" + Colons(ss[1..]) && IsGroup(ss[0]) && AllGroups(ss[1..])
    ensures AllGroups(ss[..|ss| - 1]) && IsGroup(ss[|ss| - 1])
  {
    assert ss[0] in ss && ss[|ss| - 1] in ss;
  }

  // The first pass.

  lemma {:induction false} CountColons(c: Count, ss: seq<string>)
    requires AllGroups(ss)
    ensures CountAll(c, Colons(ss)) == if ss == [] then c else Count(c.start, true, c.pos + |ss|)
    decreases |ss|
  {
    hide IsGroup, AllGroups, CountAll;
    if ss == [] {
      CountNothing(c);
    } else {
      ColonsMore(ss);
      GroupIsPlain(ss[0]);
      GroupIsSome(ss[0]);
      CountAppend(c, ss[0] + ":", Colons(ss[1..]));
      CountAppend(c, ss[0], ":");
      CountPlain(c, ss[0]);
      CountColon(c.(last := false));
      CountColons(Count(c.start, true, c.pos + 1), ss[1..]);
    }
  }

  lemma GroupIsSome(s: string)
    requires IsGroup(s)
    ensures s != ""
  {
  }

  lemma CountNothing(c: Count)
    ensures CountAll(c, "") == c
  {
  }

  lemma CountJoined(c: Count, ss: seq<string>)
    requires AllGroups(ss)
    ensures var d := CountAll(c, Joined(ss)); d.start == c.start && d.pos == c.pos + if ss == [] then 0 else |ss| - 1
  {
    hide IsGroup, AllGroups, CountAll, Colons;
    if ss == [] {
      CountNothing(c);
    } else {
      var front, last := ss[..|ss| - 1], ss[|ss| - 1];
      ColonsMore(ss);
      CountAppend(c, Colons(front), last);
      CountColons(c, front);
      GroupIsPlain(last);
      CountPlain(CountAll(c, Colons(front)), last);
    }
  }

  // The second pass.

  /** The address with these groups from position i on. */
  function With(a: Address, i: nat, gs: seq<Group>): (b: Address)
    requires i + |gs| <= 8
  {
    a[..i] + gs + a[i + |gs|..]
  }

  lemma WithMore(a: Address, i: nat, gs: seq<Group>)
    requires gs != [] && i + |gs| <= 8
    ensures With(a[i := gs[0]], i + 1, gs[1..]) == With(a, i, gs)
  {
  }

  lemma WithNone(a: Address, i: nat)
    requires i <= 8
    ensures With(a, i, []) == a
  {
  }

  lemma ValuesMore(ss: seq<string>)
    requires ss != []
    ensures Values(ss)[0] == GroupOf(ss[0]) && Values(ss)[1..] == Values(ss[1..])
    ensures Values(ss) == Values(ss[..|ss| - 1]) + [GroupOf(ss[|ss| - 1])]
  {
  }

  lemma OneGroup(f: Fill, s: string, start: nat, skip: int)
    requires f.ok && 0 <= f.pos < 8 && f.pos != start && f.hexval == 0 && IsGroup(s)
    ensures FillAll(f, s + ":", start, skip) == Fill(f.addr[f.pos := GroupOf(s)], f.pos + 1, 0, true)
  {
    hide FillAll, IsGroup, GroupOf;
    GroupIsPlain(s);
    FillAppend(f, s, ":", start, skip);
    FillPlain(f, s, start, skip);
    OneColon(f.(hexval := GroupOf(s)), start, skip);
  }

  lemma {:induction false} FillColons(f: Fill, ss: seq<string>, start: nat, skip: int)
    requires f.ok && 0 <= f.pos && f.pos + |ss| <= 8 && f.hexval == 0 && AllGroups(ss) && !(f.pos <= start < f.pos + |ss|)
    ensures FillAll(f, Colons(ss), start, skip) == Fill(With(f.addr, f.pos, Values(ss)), f.pos + |ss|, 0, true)
    decreases |ss|
  {
    hide FillAll, IsGroup, AllGroups, With, Values;
    if ss == [] {
      FillNothing(f, start, skip);
      WithNone(f.addr, f.pos);
      assert Values(ss) == [];
    } else {
      ColonsMore(ss);
      OneGroup(f, ss[0], start, skip);
      FillAppend(f, ss[0] + ":", Colons(ss[1..]), start, skip);
      ValuesMore(ss);
      WithMore(f.addr, f.pos, Values(ss));
      FillColons(Fill(f.addr[f.pos := GroupOf(ss[0])], f.pos + 1, 0, true), ss[1..], start, skip);
    }
  }

  /** Groups up to the end of the address, and the final write. */
  lemma FillJoined(f: Fill, ss: seq<string>, start: nat, skip: int)
    requires f.ok && 0 <= f.pos && ss != [] && f.pos + |ss| == 8 && f.hexval == 0 && AllGroups(ss) && !(f.pos <= start < 7)
    ensures var r := FillAll(f, Joined(ss), start, skip);
            r.ok && r.pos == 7 && r.addr[7 := r.hexval % 0x1_0000] == With(f.addr, f.pos, Values(ss))
  {
    hide FillAll, IsGroup, AllGroups, With, Values, Colons;
    var front, last := ss[..|ss| - 1], ss[|ss| - 1];
    ColonsMore(ss);
    FillAppend(f, Colons(front), last, start, skip);
    FillColons(f, front, start, skip);
    GroupIsPlain(last);
    FillPlain(Fill(With(f.addr, f.pos, Values(front)), 7, 0, true), last, start, skip);
    ValuesMore(ss);
    WithLast(f.addr, f.pos, Values(front), GroupOf(last));
  }

  lemma WithLast(a: Address, i: nat, gs: seq<Group>, g: Group)
    requires i + |gs| == 7
    ensures With(a, i, gs)[7 := g] == With(a, i, gs + [g])
  {
  }

  // Whole addresses.

  /** Eight groups, however they are spelled. */
  lemma EightGroupsAreRead(ss: seq<string>)
    requires |ss| == 8 && AllGroups(ss)
    ensures Parse(Joined(ss)) == Some(Values(ss))
  {
    hide FillAll, CountAll, IsGroup, AllGroups, With, Values, Joined;
    CountJoined(Count(8, false, 0), ss);
    FillJoined(Fill(NO_GROUPS, 0, 0, true), ss, 8, 1);
    WithAll(Values(ss));
  }

  lemma WithAll(gs: seq<Group>)
    requires |gs| == 8
    ensures With(NO_GROUPS, 0, gs) == gs
  {
  }

  function Zeros(n: nat): (gs: seq<Group>)
    ensures |gs| == n
  {
    seq(n, _ => 0)
  }

  /** The text in front of the second colon of the double one, and what the passes know there. */
  lemma BeforeSecondColon(pre: seq<string>, p: nat, skip: int)
    requires |pre| < 8 && AllGroups(pre) && p == if pre == [] then 1 else |pre|
    ensures CountAll(Count(8, false, 0), Joined(pre) + ":") == Count(8, true, p)
    ensures FillAll(Fill(NO_GROUPS, 0, 0, true), Joined(pre) + ":", p, skip) == Fill(With(NO_GROUPS, 0, Values(pre)), p, 0, true)
  {
    hide FillAll, CountAll, IsGroup, AllGroups, With, Values, Colons;
    if pre == [] {
      assert Joined(pre) + ":" == ":" && Values(pre) == [];
      WithNone(NO_GROUPS, 0);
      CountColon(Count(8, false, 0));
      OneColon(Fill(NO_GROUPS, 0, 0, true), 1, skip);
      assert NO_GROUPS[0 := 0] == NO_GROUPS;
    } else {
      JoinedColon(pre);
      CountColons(Count(8, false, 0), pre);
      FillColons(Fill(NO_GROUPS, 0, 0, true), pre, p, skip);
    }
  }

  lemma {:induction false} JoinedColon(ss: seq<string>)
    requires ss != []
    ensures Joined(ss) + ":" == Colons(ss)
  {
    hide Colons;
    ColonsEnd(ss);
  }

  lemma {:induction false} ColonsEnd(ss: seq<string>)
    requires ss != []
    ensures Colons(ss) == Colons(ss[..|ss| - 1]) + ss[|ss| - 1] + ":"
    decreases |ss|
  {
    var front, last := ss[..|ss| - 1], ss[|ss| - 1];
    if front == [] {
      assert ss == [last] && ss[1..] == [];
      assert "" + last + ":" == last + ":" + "";
    } else {
      ColonsEnd(ss[1..]);
      assert ss[1..][..|ss[1..]| - 1] == front[1..] && front[0] == ss[0];
      Moved(ss[0] + ":", Colons(front[1..]), last);
    }
  }

  lemma Moved(a: string, b: string, c: string)
    ensures a + (b + c + ":") == (a + b) + c + ":"
  {
  }

  /** The place of the double colon, as the passes number it: one in front of all groups counts as one behind an empty first group. */
  function PlaceOf(pre: seq<string>): nat {
    if pre == [] then 1 else |pre|
  }

  /** The second pass comes to the end of the address exactly in these cases. */
  predicate ComesOut(pre: seq<string>, post: seq<string>) {
    PlaceOf(pre) + |post| <= 7 || (PlaceOf(pre) == 7 && |post| <= 8)
  }

  /** The passes up to the double colon and over it. */
  lemma BothColons(pre: seq<string>, post: seq<string>) returns (skip: int)
    requires |pre| < 8 && AllGroups(pre) && AllGroups(post)
    ensures var t := Joined(pre) + "::" + Joined(post);
            var c := CountAll(Count(8, false, 0), t);
            && c.start == PlaceOf(pre) && 8 - c.pos == skip
            && FillAll(Fill(NO_GROUPS, 0, 0, true), t, c.start, skip) ==
               FillAll(Fill(With(NO_GROUPS, 0, Values(pre)), PlaceOf(pre) + skip, 0, true), Joined(post), c.start, skip)
    ensures skip == if post == [] then 7 - PlaceOf(pre) else 8 - PlaceOf(pre) - |post|
  {
    hide FillAll, CountAll, IsGroup, AllGroups, With, Values, Joined;
    var p, tail, front := PlaceOf(pre), Joined(post), Joined(pre) + ":";
    assert Joined(pre) + "::" + tail == (front + ":") + tail;
    var zero, c0 := Fill(NO_GROUPS, 0, 0, true), Count(8, false, 0);
    skip := 8 - CountAll(c0, (front + ":") + tail).pos;
    BeforeSecondColon(pre, p, skip);
    CountAppend(c0, front + ":", tail);
    CountAppend(c0, front, ":");
    CountColon(Count(8, true, p));
    CountJoined(Count(p, true, p + 1), post);
    FillAppend(zero, front + ":", tail, p, skip);
    FillAppend(zero, front, ":", p, skip);
    OneColon(Fill(With(NO_GROUPS, 0, Values(pre)), p, 0, true), p, skip);
    SecondColonWrites(Values(pre), p);
  }

  /** At or in front of the place of the double colon the second pass does not get past it if it does not skip forward. */
  lemma {:induction false} StaysLow(f: Fill, t: string, start: nat, skip: int)
    requires skip <= 0 && (f.ok ==> f.pos <= start)
    ensures var r := FillAll(f, t, start, skip); r.ok ==> r.pos <= start
    decreases |t|
  {
    if t != "" {
      StaysLow(FillStep(f, t[0], start, skip), t[1..], start, skip);
    }
  }

  /** In front of the address the first colon fails. */
  lemma NegativeFails(f: Fill, ss: seq<string>, start: nat, skip: int)
    requires f.ok && f.pos < 0 && |ss| >= 2 && AllGroups(ss)
    ensures !FillAll(f, Joined(ss), start, skip).ok
  {
    hide FillAll, IsGroup, AllGroups, Colons;
    var front, last := ss[..|ss| - 1], ss[|ss| - 1];
    ColonsMore(ss);
    ColonsMore(front);
    GroupIsPlain(front[0]);
    var hex, rest := front[0], Colons(front[1..]);
    FillAppend(f, Colons(front), last, start, skip);
    FillAppend(f, hex + ":", rest, start, skip);
    FillAppend(f, hex, ":", start, skip);
    FillPlain(f, hex, start, skip);
    var g := f.(hexval := Read(f.hexval, hex, 16, WORD16));
    OneColon(g, start, skip);
    FailedFill(g.(ok := false), rest, start, skip);
    FailedFill(g.(ok := false), last, start, skip);
  }

  /** With the double colon behind eight groups the passes run out of the address in front of it. */
  lemma {:induction false} RunsOut(f: Fill, ss: seq<string>, tail: string, start: nat, skip: int)
    requires AllGroups(ss) && start >= 8 && (f.ok ==> f.pos + |ss| >= 8)
    ensures !FillAll(f, Colons(ss) + (":" + tail), start, skip).ok
    decreases |ss|
  {
    hide FillAll, IsGroup, AllGroups, Colons;
    if !f.ok {
      FailedFill(f, Colons(ss) + (":" + tail), start, skip);
    } else if ss == [] {
      ColonsNone(ss);
      assert "" + (":" + tail) == ":" + tail;
      FillAppend(f, ":", tail, start, skip);
      OneColon(f, start, skip);
      FailedFill(FillStep(f, ':', start, skip), tail, start, skip);
    } else {
      ColonsMore(ss);
      GroupIsPlain(ss[0]);
      var rest := Colons(ss[1..]) + (":" + tail);
      assert Colons(ss) + (":" + tail) == (ss[0] + ":") + rest;
      FillAppend(f, ss[0] + ":", rest, start, skip);
      FillAppend(f, ss[0], ":", start, skip);
      FillPlain(f, ss[0], start, skip);
      var g := f.(hexval := Read(f.hexval, ss[0], 16, WORD16));
      OneColon(g, start, skip);
      RunsOut(FillStep(g, ':', start, skip), ss[1..], tail, start, skip);
    }
  }

  lemma ColonsNone(ss: seq<string>)
    requires ss == []
    ensures Colons(ss) == ""
  {
  }

  /** What is read where it comes out: the groups behind the double colon at the end, and in front of them what was written before. */
  function Taken(pre: seq<string>, post: seq<string>): (gs: seq<Group>)
    requires ComesOut(pre, post)
  {
    if |pre| + |post| <= 8 then Values(pre) + Zeros(8 - |pre| - |post|) + Values(post)
    else Values(pre)[..8 - |post|] + Values(post)
  }

  /**
    Exactly which texts with a double colon are read, and as what. It is not what section 2.2 of RFC 4291 says,
    which is that up to seven groups are left: a double colon in front of seven groups is refused, and one behind
    seven groups is taken before up to eight more, which overwrite those in front of it.
   */
  lemma DoubleColonIff(pre: seq<string>, post: seq<string>)
    requires AllGroups(pre) && AllGroups(post)
    ensures var r := Parse(Joined(pre) + "::" + Joined(post));
            if ComesOut(pre, post) then |Taken(pre, post)| == 8 && r == Some(Taken(pre, post)) else r == None
  {
    hide FillAll, CountAll, IsGroup, AllGroups, With, Values, Joined;
    if |pre| >= 8 {
      BehindEight(pre, post);
    } else {
      var p, a := PlaceOf(pre), With(NO_GROUPS, 0, Values(pre));
      var skip := BothColons(pre, post);
      var f := Fill(a, p + skip, 0, true);
      if post == [] {
        JoinedNone(post);
        FillNothing(f, p, skip);
        Assembled(Values(pre), Values(post), p);
      } else if ComesOut(pre, post) {
        FillJoined(f, post, p, skip);
        Assembled(Values(pre), Values(post), p);
      } else if p == 7 {
        NegativeFails(f, post, p, skip);
      } else {
        StaysLow(f, Joined(post), p, skip);
      }
    }
  }

  lemma BehindEight(pre: seq<string>, post: seq<string>)
    requires |pre| >= 8 && AllGroups(pre) && AllGroups(post)
    ensures Parse(Joined(pre) + "::" + Joined(post)) == None
  {
    hide FillAll, CountAll, IsGroup, AllGroups, Joined, Colons;
    var c0, tail := Count(8, false, 0), Joined(post);
    assert Joined(pre) + "::" + tail == (Joined(pre) + ":") + (":" + tail);
    JoinedColon(pre);
    CountAppend(c0, Colons(pre), ":" + tail);
    CountColons(c0, pre);
    CountAppend(Count(8, true, |pre|), ":", tail);
    CountColon(Count(8, true, |pre|));
    CountJoined(Count(|pre|, true, |pre| + 1), post);
    var c := CountAll(c0, Joined(pre) + "::" + tail);
    RunsOut(Fill(NO_GROUPS, 0, 0, true), pre, tail, c.start, 8 - c.pos);
  }

  lemma JoinedNone(ss: seq<string>)
    requires ss == []
    ensures Joined(ss) == "" && Values(ss) == []
  {
  }

  lemma SecondColonWrites(gs: seq<Group>, p: nat)
    requires |gs| < 8 && p == if gs == [] then 1 else |gs|
    ensures With(NO_GROUPS, 0, gs)[p := 0] == With(NO_GROUPS, 0, gs)
  {
  }

  lemma Assembled(a: seq<Group>, b: seq<Group>, p: nat)
    requires |a| < 8 && |b| <= 8 && p == (if a == [] then 1 else |a|) && (p + |b| <= 7 || p == 7)
    ensures var taken := if |a| + |b| <= 8 then a + Zeros(8 - |a| - |b|) + b else a[..8 - |b|] + b;
            && |taken| == 8 && (b != [] ==> With(With(NO_GROUPS, 0, a), 8 - |b|, b) == taken)
            && (b == [] ==> With(NO_GROUPS, 0, a)[7 := 0] == taken)
  {
    var first := With(NO_GROUPS, 0, a);
    assert first == a + Zeros(8 - |a|);
    if b == [] {
      assert first[7 := 0] == first && a + Zeros(8 - |a|) + b == first;
    } else if |a| + |b| <= 8 {
      assert first[..8 - |b|] == a + Zeros(8 - |a| - |b|);
    } else {
      assert first[..8 - |b|] == a[..8 - |b|];
    }
  }

  /** The two ways in which it is not the standard. */
  lemma NotTheStandard(pre: seq<string>, post: seq<string>)
    requires AllGroups(pre) && AllGroups(post)
    ensures (Parse(Joined(pre) + "::" + Joined(post)).Some? <==> |pre| + |post| <= 7) <==>
            !(pre == [] && |post| == 7) && !(|pre| == 7 && 1 <= |post| <= 8)
  {
    hide AllGroups, Joined, Values;
    DoubleColonIff(pre, post);
  }
}
