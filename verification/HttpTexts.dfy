/**
  What the parser of library/http/lib/parser.cpp makes of any text, printed by the server or not: which texts
  begin with a line that is read, and what is read from a block of fields.
 */
module HttpTexts {
  import opened HttpGrammar
  import opened HttpRoundTrip

  // Words and lines.

  /** A word is what comes before the next space, and there must be one. */
  lemma TillSpaceIff(r: string, word: string, rest: string)
    ensures TillSpace(r) == Got(word, rest) <==>
            word != "" && ' ' !in word && r == word + rest && (rest == "" || rest[0] == ' ')
  {
    if TillSpace(r) == Got(word, rest) {
      UntilIsFree(r, {' '});
      assert Free(word, {' '});
    } else if word != "" && ' ' !in word && r == word + rest && (rest == "" || rest[0] == ' ') {
      UntilPast(word, rest, {' '});
    }
  }

  function Blank(k: nat): (s: string)
    ensures |s| == k
  {
    seq(k, _ => ' ')
  }

  /** What may end a line: CR LF, a bare LF, or the end of the text. */
  predicate IsEnd(end: string, rest: string) {
    end == CRLF || end == "\n" || (end == "" && rest == "")
  }

  /** A line of a clean value with spaces around it. */
  ghost predicate IsLine(r: string, value: string, rest: string) {
    exists j: nat, k: nat, end: string :: IsEnd(end, rest) && r == Spaced(j, value, k, end, rest)
  }

  function Spaced(j: nat, value: string, k: nat, end: string, rest: string): string {
    Blank(j) + (value + (Blank(k) + (end + rest)))
  }

  lemma {:induction false} SkipBlank(k: nat, r: string)
    ensures SkipSpaces(Blank(k) + r) == SkipSpaces(r)
  {
    if k == 0 {
      assert Blank(0) + r == r;
    } else {
      assert (Blank(k) + r)[1..] == Blank(k - 1) + r;
      SkipBlank(k - 1, r);
    }
  }

  lemma {:induction false} TrimBlank(value: string, k: nat)
    requires Clean(value)
    ensures TrimEnd(value + Blank(k)) == value
  {
    if k == 0 {
      assert value + Blank(0) == value;
      CleanIsTrimmed(value);
    } else {
      assert (value + Blank(k))[..|value| + k - 1] == value + Blank(k - 1);
      TrimBlank(value, k - 1);
    }
  }

  lemma EndIsRead(end: string, rest: string)
    requires IsEnd(end, rest) && end + rest != ""
    ensures CheckCRLF(end + rest) == Got(true, rest) && (end + rest)[0] in EOL
  {
    assert end == CRLF ==> (end + rest)[2..] == rest;
    assert end == "\n" ==> (end + rest)[1..] == rest;
  }

  lemma ValueIsFree(value: string, k: nat)
    requires Clean(value)
    ensures Free(value + Blank(k), EOL)
  {
  }

  /** A value that is not empty stops the skipping of spaces; an empty one is blank to the end of the line. */
  lemma LineIsRead(value: string, j: nat, k: nat, end: string, rest: string)
    requires Clean(value) && IsEnd(end, rest)
    ensures TillCRLF(Spaced(j, value, k, end, rest)) == Got(value, rest)
  {
    hide Clean, IsEnd, TrimEnd, SkipSpaces, Until, Free;
    var text := if value == "" then "" else value + Blank(k);
    var r := Spaced(j, value, k, end, rest);
    assert SkipSpaces(r) == text + (end + rest) by { SkippedLine(value, j, k, end, rest); }
    assert Free(text, EOL) && TrimEnd(text) == value by { TextOfLine(value, k); }
    if end + rest == "" {
      assert text + (end + rest) == text && rest == "" by { NothingBehind(end, rest); }
      UntilWhole(text);
    } else {
      EndIsRead(end, rest);
      assert end + rest == [(end + rest)[0]] + (end + rest)[1..];
      UntilAt(text, (end + rest)[0], (end + rest)[1..], EOL);
    }
  }

  lemma NothingBehind(end: string, rest: string)
    requires end + rest == ""
    ensures rest == ""
  {
    assert |end + rest| == |end| + |rest|;
  }

  lemma UntilWhole(text: string)
    requires Free(text, EOL)
    ensures Until(text, EOL) == |text|
  {
    UntilPast(text, "", EOL);
    assert text + "" == text;
  }

  lemma TextOfLine(value: string, k: nat)
    requires Clean(value)
    ensures var text := if value == "" then "" else value + Blank(k); Free(text, EOL) && TrimEnd(text) == value
  {
    ValueIsFree(value, k);
    TrimBlank(value, k);
  }

  lemma SkippedLine(value: string, j: nat, k: nat, end: string, rest: string)
    requires Clean(value) && IsEnd(end, rest)
    ensures SkipSpaces(Spaced(j, value, k, end, rest)) == (if value == "" then "" else value + Blank(k)) + (end + rest)
  {
    SkipBlank(j, value + (Blank(k) + (end + rest)));
    if value == "" {
      assert value + (Blank(k) + (end + rest)) == Blank(k) + (end + rest);
      SkipBlank(k, end + rest);
      assert end + rest != "" ==> (end + rest)[0] != ' ';
      NoSpaces(end + rest);
      assert "" + (end + rest) == end + rest;
    } else {
      assert value + (Blank(k) + (end + rest)) == (value + Blank(k)) + (end + rest);
      NoSpaces(value + (Blank(k) + (end + rest)));
    }
  }

  lemma {:induction false} SkippedAre(r: string) returns (k: nat)
    ensures r == Blank(k) + SkipSpaces(r) && (SkipSpaces(r) == "" || SkipSpaces(r)[0] != ' ')
  {
    if r != "" && r[0] == ' ' {
      k := SkippedAre(r[1..]);
      assert Blank(k + 1) == [' '] + Blank(k) && r == [' '] + r[1..];
      k := k + 1;
    } else {
      k := 0;
      assert Blank(0) + r == r;
    }
  }

  lemma {:induction false} TrimmedAre(t: string) returns (k: nat)
    ensures t == TrimEnd(t) + Blank(k)
  {
    if t != "" && t[|t| - 1] == ' ' {
      k := TrimmedAre(t[..|t| - 1]);
      assert Blank(k + 1) == Blank(k) + [' '] && t == t[..|t| - 1] + [' '];
      k := k + 1;
    } else {
      k := 0;
      assert t + Blank(0) == t;
    }
  }

  /**
    Exactly which texts begin with a line that is read, and what is read of it: a value without line ends and
    outer spaces, with spaces around it, up to CR LF, a bare LF or the end of the text. A lone CR is refused.
   */
  lemma TillCRLFIff(r: string, value: string, rest: string)
    ensures TillCRLF(r) == Got(value, rest) <==> Clean(value) && IsLine(r, value, rest)
  {
    hide Clean, TrimEnd, SkipSpaces, Until;
    if TillCRLF(r) == Got(value, rest) {
      TillCRLFClean(r);
      var a := SkipSpaces(r);
      var n := Until(a, EOL);
      UntilIsFree(a, EOL);
      var j := SkippedAre(r);
      var k := TrimmedAre(a[..n]);
      var end := EndOf(a, n, rest);
      assert n == |a| ==> a[..n] == a;
      assert a[..n] == value + Blank(k) && a == a[..n] + (end + rest);
      assert r == Spaced(j, value, k, end, rest) by { Regroup(j, value, k, end, rest); }
    } else if Clean(value) && IsLine(r, value, rest) {
      var j: nat, k: nat, end: string :| IsEnd(end, rest) && r == Spaced(j, value, k, end, rest);
      LineIsRead(value, j, k, end, rest);
    }
  }

  lemma Regroup(j: nat, value: string, k: nat, end: string, rest: string)
    ensures Blank(j) + ((value + Blank(k)) + (end + rest)) == Spaced(j, value, k, end, rest)
  {
  }

  lemma EndOf(a: string, n: nat, rest: string) returns (end: string)
    requires n <= |a| && (n < |a| ==> a[n] in EOL)
    requires if n == |a| then rest == "" else CheckCRLF(a[n..]).Got? && CheckCRLF(a[n..]).rest == rest
    ensures IsEnd(end, rest) && a[n..] == end + rest
  {
    if n == |a| {
      end := "";
    } else if a[n] == '\r' {
      end := CRLF;
      assert a[n..] == CRLF + a[n..][2..];
    } else {
      end := "\n";
      assert a[n..] == "\n" + a[n..][1..];
    }
  }

  // The first line.

  /** Of all texts, only the printed number of a listed code is read as that code. */
  lemma ToCodeIff(text: string, c: Code)
    requires c != 0
    ensures ToCode(text) == c <==> text == CodeText(c)
  {
    assert IsCode(c);
    CodeComesBack(c);
    if ToCode(text) == c {
      var a, b, d := (text[0] - '0') as nat, (text[1] - '0') as nat, (text[2] - '0') as nat;
      assert text == [Digit(a), Digit(b), Digit(d)];
      Decimal(a, b, d);
      ToCodeOf(a, b, d);
    }
  }

  lemma Decimal(a: nat, b: nat, d: nat)
    requires a < 10 && b < 10 && d < 10
    ensures var c := a * 100 + b * 10 + d; c / 100 == a && c / 10 % 10 == b && c % 10 == d
  {
  }

  lemma ToVersionIff(text: string, v: Version)
    requires v != Unknown
    ensures ToVersion(text) == v <==> text == VersionText(v)
  {
  }

  predicate ReadsWords(r: string, a: string, b: string, tail: string) {
    var p := TillSpace(r);
    && p.Got? && p.value == a && p.rest != ""
    && var q := TillSpace(p.rest[1..]);
       q.Got? && q.value == b && q.rest != "" && q.rest[1..] == tail
  }

  /** Two words and a tail, with one space behind each word. */
  lemma TwoWordsIff(r: string, a: string, b: string, tail: string)
    ensures ReadsWords(r, a, b, tail) <==>
            a != "" && ' ' !in a && b != "" && ' ' !in b && r == a + (" " + (b + (" " + tail)))
  {
    hide TillSpace;
    if a != "" && ' ' !in a && b != "" && ' ' !in b && r == a + (" " + (b + (" " + tail))) {
      TillSpaceToken(a, b + (" " + tail));
      TillSpaceToken(b, tail);
      assert (" " + (b + (" " + tail)))[1..] == b + (" " + tail) && (" " + tail)[1..] == tail;
    }
    var p := TillSpace(r);
    if p.Got? && p.value == a && p.rest != "" {
      TillSpaceIff(r, a, p.rest);
      assert p.rest == " " + p.rest[1..];
      var q := TillSpace(p.rest[1..]);
      if q.Got? && q.value == b && q.rest != "" && q.rest[1..] == tail {
        TillSpaceIff(p.rest[1..], b, q.rest);
        assert q.rest == " " + tail;
      }
    }
  }

  ghost predicate IsReasonLine(tail: string, rest: string) {
    exists reason :: Clean(reason) && IsLine(tail, reason, rest)
  }

  /**
    Exactly which texts begin with a status line: the text of a version, the printed number of a listed code,
    and any line behind them. Every other number is refused.
   */
  lemma StatusLineIff(r: string, m: Response, rest: string)
    ensures ParseResponseLine(r) == Got(m, rest) <==>
            && m == Response(m.version, m.code, map[], "") && m.version != Unknown && m.code != 0
            && exists tail :: r == VersionText(m.version) + (" " + (CodeText(m.code) + (" " + tail))) && IsReasonLine(tail, rest)
  {
    hide TillSpace, TillCRLF, ToVersion, ToCode, VersionText, CodeText, IsReasonLine;
    if ParseResponseLine(r) == Got(m, rest) {
      var p := TillSpace(r);
      var q := TillSpace(p.rest[1..]);
      var tail := q.rest[1..];
      ToVersionIff(p.value, m.version);
      ToCodeIff(q.value, m.code);
      TwoWordsIff(r, p.value, q.value, tail);
      ReasonIff(tail, rest);
    }
    if m.version != Unknown && m.code != 0 {
      forall tail | r == VersionText(m.version) + (" " + (CodeText(m.code) + (" " + tail))) && IsReasonLine(tail, rest)
        ensures ParseResponseLine(r) == Got(Response(m.version, m.code, map[], ""), rest)
      {
        VersionTextIsClean(m.version);
        VersionNotEmpty(m.version);
        CodeComesBack(m.code);
        TwoWordsIff(r, VersionText(m.version), CodeText(m.code), tail);
        ReasonIff(tail, rest);
      }
    }
  }

  lemma ReasonIff(tail: string, rest: string)
    ensures IsReasonLine(tail, rest) <==> TillCRLF(tail).Got? && TillCRLF(tail).rest == rest
  {
    hide Clean, IsLine, TillCRLF;
    var p := TillCRLF(tail);
    if p.Got? {
      TillCRLFIff(tail, p.value, p.rest);
    }
    if IsReasonLine(tail, rest) {
      var reason :| Clean(reason) && IsLine(tail, reason, rest);
      TillCRLFIff(tail, reason, rest);
    }
  }

  /** Whatever text a response is read from: its code is the number that stands there as the second word. */
  lemma ResponseCodeIsRead(r: string, known: set<string>)
    ensures var p := ParseResponse(r, known);
            p.Got? ==> p.value.version != Unknown && p.value.code != 0 &&
                       exists tail :: r == VersionText(p.value.version) + (" " + (CodeText(p.value.code) + (" " + tail)))
  {
    hide ParseResponseLine, ParseFields, IsReasonLine, VersionText, CodeText;
    var l := ParseResponseLine(r);
    if l.Got? {
      StatusLineIff(r, l.value, l.rest);
    }
  }

  /** Exactly which texts begin with a request line: a method, a path and the text of a version, and nothing else on the line. */
  lemma RequestLineIff(r: string, m: Request, rest: string)
    ensures ParseRequestLine(r) == Got(m, rest) <==>
            && m.fields.Keys == {"Method", "Path"} && m.fields["Method"] in METHODS && m.fields["Path"] != ""
            && ' ' !in m.fields["Path"] && m.version != Unknown && m.body == ""
            && exists tail :: r == m.fields["Method"] + (" " + (m.fields["Path"] + (" " + tail))) && IsLine(tail, VersionText(m.version), rest)
  {
    hide TillSpace, TillCRLF, ToVersion, VersionText, METHODS, IsLine, Clean;
    if ParseRequestLine(r) == Got(m, rest) {
      var p := TillSpace(r);
      var q := TillSpace(p.rest[1..]);
      var tail := q.rest[1..];
      var l := TillCRLF(tail);
      TwoWordsIff(r, p.value, q.value, tail);
      ToVersionIff(l.value, m.version);
      TillCRLFIff(tail, l.value, rest);
    }
    if m.fields.Keys == {"Method", "Path"} && m.fields["Method"] in METHODS && m.fields["Path"] != "" && ' ' !in m.fields["Path"]
       && m.version != Unknown && m.body == "" {
      var word, path := m.fields["Method"], m.fields["Path"];
      forall tail | r == word + (" " + (path + (" " + tail))) && IsLine(tail, VersionText(m.version), rest)
        ensures ParseRequestLine(r) == Got(m, rest)
      {
        MethodsAreClean(word);
        VersionTextIsClean(m.version);
        TwoWordsIff(r, word, path, tail);
        TillCRLFIff(tail, VersionText(m.version), rest);
        assert m.fields == map["Method" := word, "Path" := path];
      }
    }
  }

  // The fields.

  /** A name, what may stand between it and its colon, and the colon; without a colon the text is used up. */
  ghost predicate IsNamed(r: string, name: string, rest: string) {
    && name != "" && Free(name, {':', ' '})
    && exists j: nat, gap: string ::
         && Free(gap, {':'}) && (gap == "" || gap[0] == ' ')
         && (r == Blank(j) + (name + (gap + (":" + rest))) || (rest == "" && r == Blank(j) + (name + gap)))
  }

  /** Exactly which texts begin with a field name: what stands between the name and the colon is passed over. */
  lemma TillColonIff(r: string, name: string, rest: string)
    ensures TillColon(r) == Got(name, rest) <==> IsNamed(r, name, rest)
  {
    hide Until, SkipSpaces, Free;
    if TillColon(r) == Got(name, rest) {
      var a := SkipSpaces(r);
      var n := Until(a, {':', ' '});
      var j := SkippedAre(r);
      var m := Until(a[n..], {':'});
      var gap := a[n..][..m];
      UntilIsFree(a, {':', ' '});
      UntilIsFree(a[n..], {':'});
      GapStarts(a, n, m);
      NamedParts(a, n, m, rest);
      assert r == Blank(j) + a;
      assert Free(gap, {':'}) && (gap == "" || gap[0] == ' ');
    } else if IsNamed(r, name, rest) {
      var j: nat, gap: string :|
        && Free(gap, {':'}) && (gap == "" || gap[0] == ' ')
        && (r == Blank(j) + (name + (gap + (":" + rest))) || (rest == "" && r == Blank(j) + (name + gap)));
      if r == Blank(j) + (name + (gap + (":" + rest))) {
        NamedIsRead(r, j, name, gap, ":" + rest);
      } else {
        assert name + gap == name + (gap + "");
        NamedIsRead(r, j, name, gap, "");
      }
    }
  }

  lemma GapStarts(a: string, n: nat, m: nat)
    requires n <= |a| && m <= |a| - n && (n < |a| ==> a[n] in {':', ' '}) && Free(a[n..][..m], {':'})
    ensures a[n..][..m] == "" || a[n..][..m][0] == ' '
  {
    if m > 0 {
      assert a[n..][..m][0] == a[n] && a[n] in a[n..][..m];
    }
  }

  lemma NamedParts(a: string, n: nat, m: nat, rest: string)
    requires n <= |a| && m <= |a| - n
    requires if m < |a| - n then a[n..][m] == ':' && rest == a[n..][m + 1..] else rest == ""
    ensures m < |a| - n ==> a == a[..n] + (a[n..][..m] + (":" + rest))
    ensures m == |a| - n ==> a == a[..n] + a[n..][..m]
  {
    assert a[n..] == a[n..][..m] + a[n..][m..];
    if m < |a| - n {
      assert a[n..][m..] == ":" + rest;
    }
  }

  lemma NamedIsRead(r: string, j: nat, name: string, gap: string, tail: string)
    requires name != "" && Free(name, {':', ' '}) && Free(gap, {':'}) && (gap == "" || gap[0] == ' ')
    requires r == Blank(j) + (name + (gap + tail)) && (tail == "" || tail[0] == ':')
    ensures TillColon(r) == Got(name, if tail == "" then "" else tail[1..])
  {
    hide *;
    var b := gap + tail;
    SkipBlank(j, name + b);
    NameStarts(name, b);
    NoSpaces(name + b);
    GapBegins(gap, tail);
    UntilUpTo(name, b, {':', ' '});
    UntilUpTo(gap, tail, {':'});
    BehindGap(gap, tail);
    TillColonGives(r, name, gap, tail);
  }

  lemma TillColonGives(r: string, name: string, gap: string, tail: string)
    requires var b := gap + tail; name != "" && SkipSpaces(r) == name + b && Until(name + b, {':', ' '}) == |name|
    requires var b := gap + tail; (name + b)[..|name|] == name && (name + b)[|name|..] == b && Until(b, {':'}) == |gap|
    requires var b := gap + tail; |b| == |gap| + |tail| && (tail != "" ==> b[|gap| + 1..] == tail[1..])
    ensures TillColon(r) == Got(name, if tail == "" then "" else tail[1..])
  {
    hide Until, SkipSpaces;
  }

  lemma NameStarts(name: string, b: string)
    requires name != "" && Free(name, {':', ' '})
    ensures (name + b)[0] != ' '
  {
    assert name[0] in name;
  }

  lemma GapBegins(gap: string, tail: string)
    requires (gap == "" || gap[0] == ' ') && (tail == "" || tail[0] == ':')
    ensures gap + tail == "" || (gap + tail)[0] in {':', ' '}
  {
  }

  lemma BehindGap(gap: string, tail: string)
    ensures |gap + tail| == |gap| + |tail| && (tail != "" ==> (gap + tail)[|gap| + 1..] == tail[1..])
  {
  }

  /** Up to where b starts with a character to stop at, or is empty. */
  lemma UntilUpTo(a: string, b: string, stop: set<char>)
    requires Free(a, stop) && (b == "" || b[0] in stop)
    ensures Until(a + b, stop) == |a| && (a + b)[..|a|] == a && (a + b)[|a|..] == b
  {
    UntilPast(a, b, stop);
  }

  /** A line of a field: any token as its name, known or not, and spaces around its value. */
  datatype Line = Line(name: string, j: nat, value: string, k: nat, end: string)

  ghost predicate LineOk(l: Line) {
    IsToken(l.name) && Clean(l.value) && (l.end == CRLF || l.end == "\n")
  }

  function LineText(l: Line, tail: string): string {
    l.name + (":" + Spaced(l.j, l.value, l.k, l.end, tail))
  }

  function LinesText(lines: seq<Line>, tail: string): string {
    if lines == [] then tail else LineText(lines[0], LinesText(lines[1..], tail))
  }

  /** The last line with this name, or -1. */
  function LastOf(lines: seq<Line>, name: string): (i: int)
    ensures -1 <= i < |lines|
    ensures i >= 0 ==> lines[i].name == name
    ensures forall k :: i < k < |lines| ==> lines[k].name != name
  {
    if lines == [] then -1
    else if lines[|lines| - 1].name == name then |lines| - 1
    else LastOf(lines[..|lines| - 1], name)
  }

  /** What the lines say: a known field has the value of its last line, and all else is as before. */
  ghost predicate Says(lines: seq<Line>, known: set<string>, before: Fields, after: Fields) {
    && after.Keys == before.Keys + (set name | name in known && LastOf(lines, name) >= 0)
    && forall name :: name in after ==>
         after[name] == if name in known && LastOf(lines, name) >= 0 then lines[LastOf(lines, name)].value else before[name]
  }

  lemma LastIs(lines: seq<Line>, name: string, i: int)
    requires -1 <= i < |lines| && (i >= 0 ==> lines[i].name == name)
    requires forall k :: i < k < |lines| ==> lines[k].name != name
    ensures LastOf(lines, name) == i
  {
  }

  lemma SaysMore(l: Line, lines: seq<Line>, known: set<string>, before: Fields, after: Fields)
    requires Says(lines, known, WithField(known, before, l.name, l.value), after)
    ensures Says([l] + lines, known, before, after)
  {
    hide LastOf;
    var mid := WithField(known, before, l.name, l.value);
    forall name
      ensures name in after <==> name in before || (name in known && LastOf([l] + lines, name) >= 0)
      ensures name in after ==> after[name] == if name in known && LastOf([l] + lines, name) >= 0
                                               then ([l] + lines)[LastOf([l] + lines, name)].value else before[name]
    {
      LastOfMore(l, lines, name);
      assert name in after <==> name in mid || (name in known && LastOf(lines, name) >= 0);
    }
  }

  lemma LastOfMore(l: Line, lines: seq<Line>, name: string)
    ensures LastOf([l] + lines, name) ==
            if LastOf(lines, name) >= 0 then LastOf(lines, name) + 1 else if name == l.name then 0 else -1
    ensures LastOf(lines, name) >= 0 ==> ([l] + lines)[LastOf([l] + lines, name)] == lines[LastOf(lines, name)]
  {
    hide LastOf;
    var i := LastOf(lines, name);
    LastIs([l] + lines, name, if i >= 0 then i + 1 else if name == l.name then 0 else -1);
  }

  lemma OneLineRead(l: Line, tail: string, known: set<string>, acc: Fields)
    requires LineOk(l)
    ensures ParseFields(LineText(l, tail), known, acc) ==
            if tail == "" then Got(WithField(known, acc, l.name, l.value), "") else
              match CheckCRLF(tail)
              case Failed => Failed
              case Got(end, rest) =>
                if end then Got(WithField(known, acc, l.name, l.value), rest)
                else ParseFields(tail, known, WithField(known, acc, l.name, l.value))
  {
    hide TillColon, TillCRLF, Clean, IsToken, CheckCRLF;
    var rest := Spaced(l.j, l.value, l.k, l.end, tail);
    TillColonName(l.name, rest);
    LineIsRead(l.value, l.j, l.k, l.end, tail);
  }

  lemma TokenGoesOn(l: Line, tail: string)
    requires LineOk(l)
    ensures LineText(l, tail) != "" && CheckCRLF(LineText(l, tail)) == Got(false, LineText(l, tail))
  {
    assert LineText(l, tail)[0] == l.name[0] && l.name[0] in l.name;
  }

  /**
    A block of fields in any text: names in any order, unknown ones and repeated ones among them, spaces around
    the values, lines that end in CR LF or a bare LF, and a blank line or the end of the text. Unknown names
    are skipped, of repeated ones the last line counts, and what stands behind the blank line is left.
   */
  lemma {:induction false} ParseAnyBlock(lines: seq<Line>, blank: string, body: string, known: set<string>, acc: Fields)
    requires lines != [] && (forall l :: l in lines ==> LineOk(l)) && IsEnd(blank, body)
    ensures var p := ParseFields(LinesText(lines, blank + body), known, acc);
            p.Got? && p.rest == body && Says(lines, known, acc, p.value)
    decreases |lines|
  {
    hide ParseFields, LineOk, CheckCRLF, Says, Spaced;
    var l, more := lines[0], lines[1..];
    var tail := LinesText(more, blank + body);
    assert l in lines && lines == [l] + more;
    var next := WithField(known, acc, l.name, l.value);
    if more == [] {
      assert tail == blank + body;
      if tail == "" { NothingBehind(blank, body); } else { EndIsRead(blank, body); }
      OneLineRead(l, tail, known, acc);
      NothingSaid(known, next);
    } else {
      assert more[0] in more;
      forall m | m in more ensures LineOk(m) { assert m in lines; }
      TokenGoesOn(more[0], LinesText(more[1..], blank + body));
      OneLineRead(l, tail, known, acc);
      ParseAnyBlock(more, blank, body, known, next);
    }
    SaysMore(l, more, known, acc, ParseFields(LinesText(lines, blank + body), known, acc).value);
  }

  lemma NothingSaid(known: set<string>, acc: Fields)
    ensures Says([], known, acc, acc)
  {
  }

  // Whole messages.

  /** What stands behind the first line: fields and a body, or nothing. */
  function Tail(lines: seq<Line>, blank: string, body: string): string {
    if lines == [] then "" else LinesText(lines, blank + body)
  }

  ghost predicate TailOk(lines: seq<Line>, blank: string, body: string) {
    (forall l :: l in lines ==> LineOk(l)) && IsEnd(blank, body) && (lines == [] ==> body == "")
  }

  lemma TailIsRead(lines: seq<Line>, blank: string, body: string, known: set<string>, acc: Fields)
    requires TailOk(lines, blank, body)
    ensures var rest := Tail(lines, blank, body);
            if rest == "" then lines == [] else
              var p := ParseFields(rest, known, acc);
              p.Got? && p.rest == body && Says(lines, known, acc, p.value)
  {
    hide ParseFields, LineOk, IsEnd, Says;
    if lines != [] {
      assert lines[0] in lines;
      TokenGoesOn(lines[0], LinesText(lines[1..], blank + body));
      ParseAnyBlock(lines, blank, body, known, acc);
    }
  }

  /** What a request gives that is written in any of these ways, by whomever. */
  lemma AnyRequestIsRead(word: string, path: string, v: Version, j: nat, k: nat, end: string,
                         lines: seq<Line>, blank: string, body: string, known: set<string>)
    requires word in METHODS && path != "" && ' ' !in path && v != Unknown && TailOk(lines, blank, body)
    requires IsEnd(end, Tail(lines, blank, body))
    ensures var text := word + (" " + (path + (" " + Spaced(j, VersionText(v), k, end, Tail(lines, blank, body)))));
            var p := ParseRequest(text, known);
            && p.Got? && p.value.version == v && p.value.body == body && p.rest == ""
            && Says(lines, known, map["Method" := word, "Path" := path], p.value.fields)
  {
    hide ParseRequestLine, ParseFields, TailOk, IsEnd, Says, VersionText, METHODS, Spaced, Tail;
    var rest, tail := Tail(lines, blank, body), Spaced(j, VersionText(v), k, end, Tail(lines, blank, body));
    var m := Request(v, map["Method" := word, "Path" := path], "");
    assert IsLine(tail, VersionText(v), rest);
    RequestLineIff(word + (" " + (path + (" " + tail))), m, rest);
    TailIsRead(lines, blank, body, known, m.fields);
    if lines == [] {
      NothingSaid(known, m.fields);
      NoTail(lines, blank, body);
    }
  }

  /** And a response. */
  lemma AnyResponseIsRead(v: Version, c: Code, reason: string, j: nat, k: nat, end: string,
                          lines: seq<Line>, blank: string, body: string, known: set<string>)
    requires v != Unknown && c != 0 && Clean(reason) && TailOk(lines, blank, body) && IsEnd(end, Tail(lines, blank, body))
    ensures var text := VersionText(v) + (" " + (CodeText(c) + (" " + Spaced(j, reason, k, end, Tail(lines, blank, body)))));
            var p := ParseResponse(text, known);
            && p.Got? && p.value.version == v && p.value.code == c && p.value.body == body && p.rest == ""
            && Says(lines, known, map[], p.value.fields)
  {
    hide ParseResponseLine, ParseFields, TailOk, IsEnd, Says, VersionText, CodeText, Spaced, Tail, Clean;
    var rest, tail := Tail(lines, blank, body), Spaced(j, reason, k, end, Tail(lines, blank, body));
    var m := Response(v, c, map[], "");
    assert IsLine(tail, reason, rest);
    assert IsReasonLine(tail, rest);
    StatusLineIff(VersionText(v) + (" " + (CodeText(c) + (" " + tail))), m, rest);
    TailIsRead(lines, blank, body, known, m.fields);
    if lines == [] {
      NothingSaid(known, m.fields);
      NoTail(lines, blank, body);
    }
  }

  lemma NoTail(lines: seq<Line>, blank: string, body: string)
    requires TailOk(lines, blank, body) && lines == []
    ensures Tail(lines, blank, body) == "" && body == ""
  {
  }

  // What is printed, letter by letter.

  /** Lines that end in CR LF, a blank one, and the body. */
  function Message(lines: seq<string>, body: string): string {
    if lines == [] then "\r\n" + body else lines[0] + "\r\n" + Message(lines[1..], body)
  }

  lemma {:induction false} FieldsMessage(order: seq<string>, fields: Fields, lines: seq<string>, body: string)
    requires |lines| == |order| && forall name :: name in order ==> name in fields
    requires forall i :: 0 <= i < |order| ==> lines[i] == order[i] + ": " + fields[order[i]]
    ensures FieldLines(order, fields) + (CRLF + body) == Message(lines, body)
    decreases |order|
  {
    if order == [] {
      assert "" + (CRLF + body) == "\r\n" + body;
    } else {
      forall name | name in order[1..] ensures name in fields { assert name in order; }
      FieldsMessage(order[1..], fields, lines[1..], body);
      assert FieldLine(order[0], fields[order[0]]) == lines[0] + "\r\n";
      Glue(lines[0] + "\r\n", FieldLines(order[1..], fields), CRLF + body);
    }
  }

  lemma Glue(a: string, b: string, c: string)
    ensures (a + b) + c == a + (b + c)
  {
  }

  /** A request and a response, line by line. */
  lemma PrintedMessages(host: string, length: string, body: string)
    ensures var m := Request(V11, map["Method" := "GET", "Path" := "/a", "Host" := host], body);
            IsOrder(["Path", "Host", "Method"], m.fields) &&
            PrintRequest(m, ["Path", "Host", "Method"]) ==
            Message(["GET /a HTTP/1.1", "Path: /a", "Host: " + host, "Method: GET"], body)
    ensures var m := Response(V2, 404, map["Content-Length" := length], body);
            IsOrder(["Content-Length"], m.fields) &&
            PrintResponse(m, "Not Found", ["Content-Length"]) ==
            Message(["HTTP/2.0 404 Not Found", "Content-Length: " + length], body)
  {
    hide PrintRequest, PrintResponse;
    PrintedRequest(host, body);
    PrintedResponse(length, body);
  }

  lemma PrintedRequest(host: string, body: string)
    ensures var m := Request(V11, map["Method" := "GET", "Path" := "/a", "Host" := host], body);
            IsOrder(["Path", "Host", "Method"], m.fields) &&
            PrintRequest(m, ["Path", "Host", "Method"]) ==
            Message(["GET /a HTTP/1.1", "Path: /a", "Host: " + host, "Method: GET"], body)
  {
    hide Message, FieldLines, RequestLine;
    var fields: Fields := map["Method" := "GET", "Path" := "/a", "Host" := host];
    assert "Path" + ": " + "/a" == "Path: /a" && "Host" + ": " + host == "Host: " + host && "Method" + ": " + "GET" == "Method: GET";
    var lines := ["Path: /a", "Host: " + host, "Method: GET"];
    FieldsMessage(["Path", "Host", "Method"], fields, lines, body);
    FirstLine(fields, body);
    OneLineMore("GET /a HTTP/1.1", lines, body);
    assert ["GET /a HTTP/1.1"] + lines == ["GET /a HTTP/1.1", "Path: /a", "Host: " + host, "Method: GET"];
  }

  lemma FirstLine(fields: Fields, body: string)
    requires "Method" in fields && fields["Method"] == "GET" && "Path" in fields && fields["Path"] == "/a"
    ensures RequestLine(Request(V11, fields, body)) == "GET /a HTTP/1.1"
  {
  }

  lemma OneLineMore(line: string, lines: seq<string>, body: string)
    ensures Message([line] + lines, body) == line + "\r\n" + Message(lines, body)
  {
    assert ([line] + lines)[1..] == lines;
  }

  lemma PrintedResponse(length: string, body: string)
    ensures var m := Response(V2, 404, map["Content-Length" := length], body);
            IsOrder(["Content-Length"], m.fields) &&
            PrintResponse(m, "Not Found", ["Content-Length"]) ==
            Message(["HTTP/2.0 404 Not Found", "Content-Length: " + length], body)
  {
    hide Message, FieldLines, CodeText;
    var fields: Fields := map["Content-Length" := length];
    var lines := ["Content-Length: " + length];
    assert "Content-Length" + ": " + length == "Content-Length: " + length;
    FieldsMessage(["Content-Length"], fields, lines, body);
    NotFoundIs404();
    assert VersionText(V2) + " " + "404" + " " + "Not Found" == "HTTP/2.0 404 Not Found";
    OneLineMore("HTTP/2.0 404 Not Found", lines, body);
    assert ["HTTP/2.0 404 Not Found"] + lines == ["HTTP/2.0 404 Not Found", "Content-Length: " + length];
  }

  lemma NotFoundIs404()
    ensures CodeText(404) == "404"
  {
    Decimal(4, 0, 4);
    assert IsCode(404);
  }
}
