/**
  Reading undoes printing: exactly which requests and responses come back from their own text.
 */
module HttpRoundTrip {
  import opened HttpGrammar

  /** A value that a line can carry: no line end in it and no space around it. */
  predicate Clean(v: string) {
    && '\r' !in v && '\n' !in v
    && (v != "" ==> v[0] != ' ' && v[|v| - 1] != ' ')
  }

  predicate AllClean(fields: Fields) {
    forall name :: name in fields ==> Clean(fields[name])
  }

  ghost predicate AllKnown(fields: Fields, known: set<string>) {
    forall name :: name in fields ==> name in known
  }

  // Scanning.

  predicate Free(a: string, stop: set<char>) {
    forall c :: c in a ==> c !in stop
  }

  lemma {:induction false} UntilPast(a: string, b: string, stop: set<char>)
    requires Free(a, stop)
    ensures Until(a + b, stop) == |a| + Until(b, stop)
    ensures (a + b)[..|a|] == a && (a + b)[|a|..] == b
  {
    if a == "" {
      assert a + b == b;
    } else {
      assert a[0] in a;
      assert (a + b)[1..] == a[1..] + b;
      UntilPast(a[1..], b, stop);
    }
  }

  lemma UntilAt(a: string, c: char, b: string, stop: set<char>)
    requires Free(a, stop) && c in stop
    ensures Until(a + ([c] + b), stop) == |a|
    ensures (a + ([c] + b))[..|a|] == a && (a + ([c] + b))[|a|..] == [c] + b
  {
    UntilPast(a, [c] + b, stop);
  }

  lemma {:induction false} UntilIsFree(r: string, stop: set<char>)
    ensures Free(r[..Until(r, stop)], stop)
    ensures Until(r, stop) < |r| ==> r[Until(r, stop)] in stop
  {
    if r != "" && r[0] !in stop {
      UntilIsFree(r[1..], stop);
      var n := Until(r[1..], stop);
      assert r[..n + 1] == [r[0]] + r[1..][..n];
    }
  }

  lemma NoSpaces(r: string)
    requires r == "" || r[0] != ' '
    ensures SkipSpaces(r) == r
  {
  }

  lemma {:induction false} SkipSpacesLeaves(r: string)
    ensures SkipSpaces(r) == "" || SkipSpaces(r)[0] != ' '
    ensures exists n :: 0 <= n <= |r| && SkipSpaces(r) == r[n..]
  {
    if r != "" && r[0] == ' ' {
      SkipSpacesLeaves(r[1..]);
      var n :| 0 <= n <= |r[1..]| && SkipSpaces(r[1..]) == r[1..][n..];
      assert r[1..][n..] == r[n + 1..];
    } else {
      assert r[0..] == r;
    }
  }

  lemma {:induction false} TrimEndLeaves(t: string)
    ensures TrimEnd(t) <= t
    ensures TrimEnd(t) == "" || TrimEnd(t)[|TrimEnd(t)| - 1] != ' '
  {
    if t != "" && t[|t| - 1] == ' ' {
      TrimEndLeaves(t[..|t| - 1]);
    }
  }

  lemma CleanIsTrimmed(v: string)
    requires Clean(v)
    ensures TrimEnd(v) == v
  {
  }

  // One line.

  lemma TillSpaceToken(a: string, b: string)
    requires a != "" && ' ' !in a
    ensures TillSpace(a + (" " + b)) == Got(a, " " + b)
  {
    UntilAt(a, ' ', b, {' '});
  }

  /** The end of a line: a text without line ends, trimmed, and what follows the line. */
  lemma TillCRLFText(a: string, rest: string)
    requires Free(a, EOL) && (a == "" || a[0] != ' ')
    ensures TillCRLF(a + (CRLF + rest)) == Got(TrimEnd(a), rest)
  {
    hide Free, Until, SkipSpaces, TrimEnd, CheckCRLF;
    var r := a + (CRLF + rest);
    CheckEnd(rest);
    UntilAt(a, '\r', ['\n'] + rest, EOL);
    NoSpaces(r);
  }

  lemma CheckEnd(rest: string)
    ensures CRLF + rest == ['\r'] + (['\n'] + rest)
    ensures CheckCRLF(CRLF + rest) == Got(true, rest)
  {
    assert (CRLF + rest)[2..] == rest;
  }

  lemma SpaceBefore(r: string)
    ensures SkipSpaces(" " + r) == SkipSpaces(r)
  {
    assert (" " + r)[1..] == r;
  }

  lemma TillCRLFAfterSpace(r: string)
    ensures TillCRLF(" " + r) == TillCRLF(r)
  {
    SpaceBefore(r);
  }

  lemma CleanIsFree(v: string)
    requires Clean(v)
    ensures Free(v, EOL)
  {
  }

  lemma TillCRLFValue(v: string, rest: string)
    requires Clean(v)
    ensures TillCRLF(v + (CRLF + rest)) == Got(v, rest)
    ensures TillCRLF(" " + (v + (CRLF + rest))) == Got(v, rest)
  {
    TillCRLFAfterSpace(v + (CRLF + rest));
    CleanIsFree(v);
    TillCRLFText(v, rest);
    CleanIsTrimmed(v);
  }

  lemma TillColonName(name: string, rest: string)
    requires IsToken(name)
    ensures TillColon(name + (":" + rest)) == Got(name, rest)
  {
    var r := name + (":" + rest);
    NoSpaces(r);
    UntilAt(name, ':', rest, {':', ' '});
    assert Until(":" + rest, {':'}) == 0;
    assert (":" + rest)[1..] == rest;
  }

  lemma LineShape(name: string, value: string, tail: string)
    ensures FieldLine(name, value) + tail == name + (":" + (" " + (value + (CRLF + tail))))
  {
  }

  // The field lines.

  /** Something other than a line end or nothing: here the parser goes on reading fields. */
  predicate GoesOn(r: string) {
    r != "" && r[0] !in EOL
  }

  lemma ParseOneField(name: string, value: string, tail: string, known: set<string>, acc: Fields)
    requires FieldNames(known) && name in known && Clean(value)
    ensures GoesOn(tail) ==> ParseFields(FieldLine(name, value) + tail, known, acc) == ParseFields(tail, known, acc[name := value])
    ensures |tail| >= 2 && tail[..2] == CRLF
            ==> ParseFields(FieldLine(name, value) + tail, known, acc) == Got(acc[name := value], tail[2..])
  {
    hide FieldLine, TillColon, TillCRLF, Clean, IsToken;
    LineShape(name, value, tail);
    var rest := " " + (value + (CRLF + tail));
    TillColonName(name, rest);
    TillCRLFValue(value, tail);
    assert |tail| >= 2 && tail[..2] == CRLF ==> tail[0] == '\r' && tail[1] == '\n';
  }

  /** What the fields become when these lines are read after acc. */
  function Merged(order: seq<string>, fields: Fields, acc: Fields): Fields
    requires forall name :: name in order ==> name in fields
  {
    if order == [] then acc else Merged(order[1..], fields, acc[order[0] := fields[order[0]]])
  }

  lemma {:induction false} MergedGives(order: seq<string>, fields: Fields, acc: Fields)
    requires forall name :: name in order ==> name in fields
    ensures Merged(order, fields, acc).Keys == acc.Keys + set name | name in order
    ensures forall name :: name in Merged(order, fields, acc) ==>
              Merged(order, fields, acc)[name] == if name in order then fields[name] else acc[name]
  {
    if order != [] {
      MergedGives(order[1..], fields, acc[order[0] := fields[order[0]]]);
      forall name ensures name in order <==> name == order[0] || name in order[1..] {
        assert order == [order[0]] + order[1..];
      }
    }
  }

  lemma LinesGoOn(order: seq<string>, fields: Fields, known: set<string>, tail: string)
    requires FieldNames(known) && forall name :: name in order ==> name in fields && name in known
    requires order != []
    ensures GoesOn(FieldLines(order, fields) + tail)
  {
    var name := order[0];
    assert IsToken(name);
    assert (FieldLines(order, fields) + tail)[0] == FieldLine(name, fields[name])[0] == name[0];
    assert name[0] in name;
  }

  lemma Joined(order: seq<string>, fields: Fields, tail: string)
    requires order != [] && forall name :: name in order ==> name in fields
    ensures FieldLines(order, fields) + tail == FieldLine(order[0], fields[order[0]]) + (FieldLines(order[1..], fields) + tail)
  {
  }

  /** Lines that are followed by something to read as a field are read one by one. */
  lemma {:induction false} ParseLines(order: seq<string>, fields: Fields, tail: string, known: set<string>, acc: Fields)
    requires FieldNames(known) && forall name :: name in order ==> name in fields && name in known && Clean(fields[name])
    requires GoesOn(tail)
    ensures ParseFields(FieldLines(order, fields) + tail, known, acc) == ParseFields(tail, known, Merged(order, fields, acc))
  {
    if order == [] {
      assert FieldLines(order, fields) + tail == tail;
    } else {
      var more := FieldLines(order[1..], fields) + tail;
      if order[1..] == [] { assert more == tail; } else { LinesGoOn(order[1..], fields, known, tail); }
      Joined(order, fields, tail);
      ParseOneField(order[0], fields[order[0]], more, known, acc);
      ParseLines(order[1..], fields, tail, known, acc[order[0] := fields[order[0]]]);
    }
  }

  /** The whole block of fields and the body behind it. */
  lemma {:induction false} ParseBlock(order: seq<string>, fields: Fields, body: string, known: set<string>, acc: Fields)
    requires FieldNames(known) && forall name :: name in order ==> name in fields && name in known && Clean(fields[name])
    requires order != []
    ensures ParseFields(FieldLines(order, fields) + (CRLF + body), known, acc) == Got(Merged(order, fields, acc), body)
  {
    var tail := CRLF + body;
    var more := FieldLines(order[1..], fields) + tail;
    var acc' := acc[order[0] := fields[order[0]]];
    Joined(order, fields, tail);
    ParseOneField(order[0], fields[order[0]], more, known, acc);
    if order[1..] == [] {
      assert more == tail && tail[..2] == CRLF && tail[2..] == body;
    } else {
      LinesGoOn(order[1..], fields, known, tail);
      ParseBlock(order[1..], fields, body, known, acc');
    }
  }

  lemma MergedAll(order: seq<string>, fields: Fields, acc: Fields)
    requires IsOrder(order, fields) && acc.Keys <= fields.Keys
    ensures Merged(order, fields, acc) == fields
  {
    MergedGives(order, fields, acc);
  }

  // What every successful parse gives.

  lemma TillCRLFClean(r: string)
    ensures TillCRLF(r).Got? ==> Clean(TillCRLF(r).value)
  {
    var a := SkipSpaces(r);
    var n := Until(a, EOL);
    SkipSpacesLeaves(r);
    UntilIsFree(a, EOL);
    TrimEndLeaves(a[..n]);
    assert n == |a| ==> a[..n] == a;
    FreePrefix(a[..n], TrimEnd(a[..n]));
  }

  lemma FreePrefix(t: string, p: string)
    requires Free(t, EOL) && p <= t
    ensures '\r' !in p && '\n' !in p
  {
    forall c | c in p ensures c in t {
      var i :| 0 <= i < |p| && p[i] == c;
      assert t[i] == c;
    }
  }

  /** Fields only gain known names, and only with clean values. */
  lemma {:induction false} ParseFieldsKeeps(r: string, known: set<string>, acc: Fields)
    ensures var p := ParseFields(r, known, acc);
            p.Got? ==>
              && acc.Keys <= p.value.Keys <= acc.Keys + known && |p.rest| < |r|
              && (forall name :: name in p.value ==> (name in acc && p.value[name] == acc[name]) || Clean(p.value[name]))
    decreases |r|
  {
    hide TillColon, TillCRLF, Clean;
    TillColonShrinks(r);
    var c := TillColon(r);
    if c.Got? {
      TillCRLFShrinks(c.rest);
      TillCRLFClean(c.rest);
      var v := TillCRLF(c.rest);
      if v.Got? && v.rest != "" && CheckCRLF(v.rest).Got? && !CheckCRLF(v.rest).value {
        ParseFieldsKeeps(v.rest, known, WithField(known, acc, c.value, v.value));
      }
    }
  }

  // Requests.

  /**
    The request line comes back: a known method, then a path without spaces. The one other case is an empty
    path behind a method that holds the path as its second word.
   */
  predicate LineComesBack(m: string, path: string) {
    var n := Until(m, {' '});
    if n == |m| then m in METHODS && path != "" && ' ' !in path
    else m[..n] in METHODS && ' ' !in m[n + 1..] && path == ""
  }

  /** What a caller can check of a request before printing it. */
  ghost predicate RequestComesBack(m: Request, known: set<string>) {
    && m.version != Unknown && AllKnown(m.fields, known) && AllClean(m.fields)
    && "Method" in m.fields && "Path" in m.fields
    && LineComesBack(m.fields["Method"], m.fields["Path"])
  }

  lemma VersionTextIsClean(v: Version)
    ensures Clean(VersionText(v)) && (v != Unknown ==> ' ' !in VersionText(v) && ToVersion(VersionText(v)) == v)
  {
  }

  lemma VersionsHaveNoSpace(text: string)
    requires ToVersion(text) != Unknown
    ensures ' ' !in text && text == VersionText(ToVersion(text))
  {
  }

  /** Three words, as the request line reader sees them. */
  lemma ReadWords(word: string, path: string, version: string, rest: string)
    requires word != "" && ' ' !in word && path != "" && ' ' !in path
    ensures ParseRequestLine(word + (" " + (path + (" " + (version + (CRLF + rest)))))) ==
            if word !in METHODS then Failed else
              match TillCRLF(version + (CRLF + rest))
              case Failed => Failed
              case Got(text, r) =>
                if ToVersion(text) == Unknown then Failed
                else Got(Request(ToVersion(text), map["Method" := word, "Path" := path], ""), r)
  {
    hide TillSpace, TillCRLF, ToVersion, METHODS;
    var r2 := version + (CRLF + rest);
    var r1 := path + (" " + r2);
    TillSpaceToken(word, r1);
    TillSpaceToken(path, r2);
    assert (" " + r1)[1..] == r1 && (" " + r2)[1..] == r2;
  }

  /** What stands behind the request line in the printed text. */
  function Behind(m: Request, order: seq<string>): string
    requires IsOrder(order, m.fields)
  {
    FieldLines(order, m.fields) + (CRLF + m.body)
  }

  lemma PrintedShape(m: Request, order: seq<string>)
    requires IsOrder(order, m.fields)
    ensures PrintRequest(m, order) == Lookup(m.fields, "Method") +
              (" " + (Lookup(m.fields, "Path") + (" " + (VersionText(m.version) + (CRLF + Behind(m, order))))))
  {
    hide FieldLines, VersionText, Lookup;
  }

  lemma Split(m: string)
    requires Until(m, {' '}) < |m|
    ensures var n := Until(m, {' '}); m == m[..n] + (" " + m[n + 1..]) && ' ' !in m[..n]
  {
    hide Until;
    UntilIsFree(m, {' '});
    CutAt(m, Until(m, {' '}));
  }

  lemma CutAt(m: string, n: nat)
    requires n < |m|
    ensures m == m[..n] + ([m[n]] + m[n + 1..])
  {
  }

  lemma NoSpace(m: string)
    ensures Until(m, {' '}) == |m| <==> ' ' !in m
  {
    UntilIsFree(m, {' '});
    assert m[..|m|] == m;
    if ' ' !in m {
      UntilPast(m, "", {' '});
      assert m + "" == m;
    }
  }

  /** The fields and the body of a request whose line has been read come back. */
  lemma FieldsComeBack(m: Request, order: seq<string>, known: set<string>, acc: Fields)
    requires FieldNames(known) && IsOrder(order, m.fields) && AllKnown(m.fields, known) && AllClean(m.fields)
    requires acc.Keys <= m.fields.Keys && m.fields != map[]
    ensures Behind(m, order) != "" && ParseFields(Behind(m, order), known, acc) == Got(m.fields, m.body)
  {
    hide Clean;
    var name :| name in m.fields;
    assert name in order;
    ParseBlock(order, m.fields, m.body, known, acc);
    MergedAll(order, m.fields, acc);
  }

  lemma RequestForward(m: Request, order: seq<string>, known: set<string>)
    requires FieldNames(known) && IsOrder(order, m.fields) && RequestComesBack(m, known)
    ensures ParseRequest(PrintRequest(m, order), known) == Got(m, "")
  {
    hide ParseRequestLine, ParseFields, TillCRLF, FieldLines, VersionText, ToVersion, Clean, METHODS, PrintRequest, Until;
    var method', path, version, rest := m.fields["Method"], m.fields["Path"], VersionText(m.version), Behind(m, order);
    PrintedShape(m, order);
    VersionTextIsClean(m.version);
    TillCRLFValue(version, rest);
    NoSpace(method');
    var n := Until(method', {' '});
    if n == |method'| {
      MethodsAreClean(method');
      ReadWords(method', path, version, rest);
      FieldsComeBack(m, order, known, map["Method" := method', "Path" := path]);
    } else {
      Split(method');
      var word, hidden := method'[..n], method'[n + 1..];
      TwoWords(method', word, hidden, version, rest);
      CleanEnds(method', n);
      ReadWords(word, hidden, " " + version, rest);
      FieldsComeBack(m, order, known, map["Method" := word, "Path" := hidden]);
    }
  }

  lemma CleanEnds(m: string, n: nat)
    requires Clean(m) && n < |m| && m[n] == ' '
    ensures m[..n] != "" && m[n + 1..] != "" && m[n + 1..][|m[n + 1..]| - 1] != ' '
  {
  }

  lemma TwoWords(m: string, word: string, hidden: string, version: string, rest: string)
    requires m == word + (" " + hidden)
    ensures m + (" " + ("" + (" " + (version + (CRLF + rest))))) == word + (" " + (hidden + (" " + ((" " + version) + (CRLF + rest)))))
    ensures (" " + version) + (CRLF + rest) == " " + (version + (CRLF + rest))
  {
  }

  // The other direction: what a request that came back must look like.

  lemma ReadLineGives(r: string)
    ensures var p := ParseRequestLine(r);
            p.Got? ==>
              && p.value.version != Unknown && p.value.fields.Keys == {"Method", "Path"}
              && p.value.fields["Method"] in METHODS && p.value.fields["Path"] != "" && ' ' !in p.value.fields["Path"]
  {
    hide TillCRLF, ToVersion, METHODS;
    var w := TillSpace(r);
    if w.Got? && w.rest != "" {
      UntilIsFree(w.rest[1..], {' '});
    }
  }

  lemma MethodsAreClean(m: string)
    requires m in METHODS
    ensures Clean(m) && m != "" && ' ' !in m
  {
  }

  /** A text with a space inside is no version. */
  lemma SpacedIsNoVersion(a: string, version: string, rest: string)
    requires Free(a, EOL) && a != "" && a[|a| - 1] != ' '
    requires Free(version, EOL) && version != "" && version[|version| - 1] != ' '
    ensures var p := TillCRLF(a + (" " + (version + (CRLF + rest)))); p.Got? && ToVersion(p.value) == Unknown
  {
    hide TillCRLF, ToVersion, SkipSpaces, Free, TrimEnd;
    var b := SkipSpaces(a);
    SkipSpacesInside(a, " " + (version + (CRLF + rest)));
    SkipSpacesLeaves(a);
    var n :| 0 <= n <= |a| && b == a[n..];
    FreeText(a, n, version);
    Regroup(b, " ", version, CRLF + rest);
    TillCRLFText(b + (" " + version), rest);
    SkippedSame(a + (" " + (version + (CRLF + rest))), (b + (" " + version)) + (CRLF + rest));
    SpacedText(b, version);
  }

  lemma SpacedText(b: string, version: string)
    requires version != "" && version[|version| - 1] != ' '
    ensures TrimEnd(b + (" " + version)) == b + (" " + version)
    ensures ToVersion(b + (" " + version)) == Unknown
  {
    var text := b + (" " + version);
    assert text[|b|] == ' ' && text[|text| - 1] == version[|version| - 1];
    if ToVersion(text) != Unknown {
      VersionsHaveNoSpace(text);
    }
  }

  lemma FreeText(a: string, n: nat, version: string)
    requires Free(a, EOL) && n <= |a| && Free(version, EOL)
    ensures Free(a[n..] + (" " + version), EOL)
  {
    forall c | c in a[n..] + (" " + version) ensures c !in EOL {
      assert c in a || c == ' ' || c in version;
    }
  }

  lemma {:induction false} SkipSpacesInside(a: string, y: string)
    requires a != "" && a[|a| - 1] != ' '
    ensures SkipSpaces(a) != "" && SkipSpaces(a)[|SkipSpaces(a)| - 1] != ' ' && SkipSpaces(a + y) == SkipSpaces(a) + y
  {
    if a[0] == ' ' {
      assert (a + y)[1..] == a[1..] + y;
      SkipSpacesInside(a[1..], y);
    }
  }

  lemma SkippedSame(r: string, t: string)
    requires SkipSpaces(r) == t && (t == "" || t[0] != ' ')
    ensures TillCRLF(r) == TillCRLF(t)
  {
    NoSpaces(t);
  }

  /** Reading words for a request that came back: with clean parts, the line has one of the two good forms. */
  lemma CleanLineComesBack(method': string, path: string, version: string, rest: string)
    requires Clean(method') && Clean(path) && Clean(version) && version != ""
    requires ParseRequestLine(method' + (" " + (path + (" " + (version + (CRLF + rest)))))).Got?
    ensures LineComesBack(method', path)
  {
    hide ParseRequestLine, TillCRLF, Clean, ToVersion, METHODS, Until;
    NoSpace(method');
    if Until(method', {' '}) == |method'| {
      OneWordLine(method', path, version, rest);
    } else {
      Split(method');
      TwoWordLine(method', method'[..Until(method', {' '})], method'[Until(method', {' '}) + 1..], path, version, rest);
    }
  }

  lemma CleanPart(v: string, n: nat)
    requires Clean(v) && n < |v|
    ensures v[n..] != "" && v[n..][|v[n..]| - 1] != ' ' && Free(v[n..], EOL)
    ensures v[n] == ' ' ==> n > 0 && n + 1 < |v|
  {
    forall c | c in v[n..] ensures c in v {}
  }

  lemma StartsWithSpace(r: string)
    requires r != "" && r[0] == ' '
    ensures TillSpace(r) == Failed
  {
  }

  lemma LineFails(word: string, r: string)
    requires word != "" && ' ' !in word && (r == "" || r[0] == ' ')
    ensures !ParseRequestLine(word + (" " + r)).Got?
  {
    TillSpaceToken(word, r);
    assert (" " + r)[1..] == r;
  }

  /** A method without a space: it must be known, and the path be one word. */
  lemma OneWordLine(word: string, path: string, version: string, rest: string)
    requires ' ' !in word && Clean(path) && Clean(version) && version != ""
    requires ParseRequestLine(word + (" " + (path + (" " + (version + (CRLF + rest)))))).Got?
    ensures word in METHODS && path != "" && ' ' !in path
  {
    hide ParseRequestLine, TillCRLF, Clean, ToVersion, METHODS, Until;
    var r2 := version + (CRLF + rest);
    if word == "" {
      assert word + (" " + (path + (" " + r2))) == " " + (path + (" " + r2));
      NoWord(path + (" " + r2));
    } else if path == "" {
      assert path + (" " + r2) == " " + r2;
      LineFails(word, path + (" " + r2));
    } else {
      NoSpace(path);
      UntilIsFree(path, {' '});
      var n := Until(path, {' '});
      if n == |path| {
        ReadWords(word, path, version, rest);
      } else {
        Split(path);
        LongLine(word, path, n, version, rest);
      }
    }
  }

  lemma NoWord(r: string)
    ensures !ParseRequestLine(" " + r).Got?
  {
    StartsWithSpace(" " + r);
  }

  /** Behind the second word something is left in front of the version, so it is none. */
  lemma LongLine(word: string, v: string, n: nat, version: string, rest: string)
    requires word != "" && ' ' !in word && Clean(v) && n < |v| && v[n] == ' ' && ' ' !in v[..n]
    requires Clean(version) && version != ""
    ensures !ParseRequestLine(word + (" " + (v + (" " + (version + (CRLF + rest)))))).Got?
  {
    hide ParseRequestLine, TillCRLF, Clean, ToVersion, METHODS, Until;
    CutAt(v, n);
    CleanPart(v, n);
    CleanPart(v, n + 1);
    var a := v[n + 1..];
    assert v + (" " + (version + (CRLF + rest))) == v[..n] + (" " + ((a + (" " + version)) + (CRLF + rest)));
    assert (a + (" " + version)) + (CRLF + rest) == a + (" " + (version + (CRLF + rest)));
    ReadWords(word, v[..n], a + (" " + version), rest);
    VersionEnd(version);
    SpacedIsNoVersion(a, version, rest);
  }

  lemma VersionEnd(version: string)
    requires Clean(version) && version != ""
    ensures Free(version, EOL) && version[|version| - 1] != ' '
  {
  }

  /** A method with a space: its second part must be the one word of the path, and the path be empty. */
  lemma TwoWordLine(m: string, word: string, more: string, path: string, version: string, rest: string)
    requires m == word + (" " + more) && ' ' !in word && Clean(m) && Clean(path) && Clean(version) && version != ""
    requires ParseRequestLine(m + (" " + (path + (" " + (version + (CRLF + rest)))))).Got?
    ensures word in METHODS && ' ' !in more && path == ""
  {
    hide ParseRequestLine, TillCRLF, Clean, ToVersion, METHODS, Until;
    var n := |word|;
    assert m[n] == ' ' && m[n + 1..] == more && m[..n] == word;
    CleanPart(m, n);
    CleanPart(m, n + 1);
    var tail := " " + (path + (" " + (version + (CRLF + rest))));
    assert m + tail == word + (" " + (more + tail));
    NoSpace(more);
    UntilIsFree(more, {' '});
    var k := Until(more, {' '});
    if k == |more| {
      WholeSecondWord(word, more, path, version, rest);
    } else if k == 0 {
      assert (more + tail)[0] == ' ';
      LineFails(word, more + tail);
    } else {
      Split(more);
      ThreeWords(m, word, more[..k], more[k + 1..], tail);
      SecondWordFails(word, more[..k], more[k + 1..], path, version, rest);
    }
  }

  lemma WholeSecondWord(word: string, more: string, path: string, version: string, rest: string)
    requires word != "" && ' ' !in word && more != "" && ' ' !in more && Clean(path) && Clean(version) && version != ""
    requires ParseRequestLine(word + (" " + (more + (" " + (path + (" " + (version + (CRLF + rest)))))))).Got?
    ensures word in METHODS && path == ""
  {
    hide ParseRequestLine, TillCRLF, Clean, ToVersion, METHODS, Free;
    Regroup(path, " ", version, CRLF + rest);
    ReadWords(word, more, path + (" " + version), rest);
    if path != "" {
      CleanPart(path, 0);
      assert path[0..] == path;
      VersionEnd(version);
      SpacedIsNoVersion(path, version, rest);
    }
  }

  lemma ThreeWords(m: string, word: string, second: string, third: string, tail: string)
    requires m == word + (" " + (second + (" " + third))) && Clean(m)
    ensures m + tail == word + (" " + (second + (" " + (third + tail))))
    ensures third != "" && third[|third| - 1] != ' ' && Free(third, EOL)
  {
    Regroup(word, " ", second + (" " + third), tail);
    Regroup(second, " ", third, tail);
    var n := |word| + 1 + |second|;
    assert m[n] == ' ' && m[n + 1..] == third;
    CleanPart(m, n);
    CleanPart(m, n + 1);
  }

  lemma Regroup(a: string, b: string, c: string, d: string)
    ensures (a + (b + c)) + d == a + (b + (c + d))
  {
  }

  lemma SecondWordFails(word: string, second: string, a: string, path: string, version: string, rest: string)
    requires word != "" && ' ' !in word && second != "" && ' ' !in second
    requires Free(a, EOL) && a != "" && a[|a| - 1] != ' ' && Clean(path) && Clean(version) && version != ""
    ensures !ParseRequestLine(word + (" " + (second + (" " + (a + (" " + (path + (" " + (version + (CRLF + rest)))))))))).Got?
  {
    hide ParseRequestLine, TillCRLF, Clean, ToVersion, METHODS, Until;
    var last := path + (" " + version);
    assert (a + (" " + last)) + (CRLF + rest) == a + (" " + (path + (" " + (version + (CRLF + rest)))));
    assert a + (" " + (last + (CRLF + rest))) == a + (" " + (path + (" " + (version + (CRLF + rest)))));
    ReadWords(word, second, a + (" " + last), rest);
    CleanIsFree(path);
    VersionEnd(version);
    forall x | x in last ensures x !in EOL {
      assert x in path || x == ' ' || x in version;
    }
    assert last[|last| - 1] == version[|version| - 1];
    SpacedIsNoVersion(a, last, rest);
  }

  /** A field line for the path leaves a clean path, whatever follows. */
  lemma PathLineCleans(r: string, known: set<string>, acc: Fields)
    requires FieldNames(known)
    ensures var p := ParseFields("Path" + (":" + r), known, acc);
            p.Got? ==> "Path" in p.value && Clean(p.value["Path"])
  {
    hide TillColon, TillCRLF, Clean, IsToken;
    assert IsToken("Path");
    TillColonName("Path", r);
    TillCRLFClean(r);
    var v := TillCRLF(r);
    if v.Got? && v.rest != "" {
      ParseFieldsKeeps(v.rest, known, WithField(known, acc, "Path", v.value));
    }
  }

  lemma {:induction false} LinesJoin(a: seq<string>, b: seq<string>, fields: Fields)
    requires forall name :: name in a + b ==> name in fields
    ensures forall name :: name in a || name in b ==> name in fields
    ensures FieldLines(a + b, fields) == FieldLines(a, fields) + FieldLines(b, fields)
  {
    forall name | name in a || name in b ensures name in fields {
      assert name in a + b;
    }
    if a == [] {
      assert a + b == b;
    } else {
      assert (a + b)[1..] == a[1..] + b;
      LinesJoin(a[1..], b, fields);
    }
  }

  /** The printed fields hold a line for the path, and the parser comes to it, so the path it ends with is clean. */
  lemma PathComesClean(m: Request, order: seq<string>, known: set<string>, acc: Fields)
    requires FieldNames(known) && IsOrder(order, m.fields) && "Path" in m.fields && AllKnown(m.fields, known)
    requires forall name :: name in m.fields && name != "Path" ==> Clean(m.fields[name])
    ensures var p := ParseFields(Behind(m, order), known, acc);
            p.Got? ==> "Path" in p.value && Clean(p.value["Path"])
  {
    hide ParseFields, Clean, Merged, IsToken, FieldLine, FieldLines, Behind;
    var i :| 0 <= i < |order| && order[i] == "Path";
    var path := m.fields["Path"];
    var more := BehindSplit(m, order, i);
    forall name | name in order[..i] ensures name in known && Clean(m.fields[name]) {
      assert name in order;
    }
    LineShape("Path", path, more);
    ParseLines(order[..i], m.fields, FieldLine("Path", path) + more, known, acc);
    PathLineCleans(" " + (path + (CRLF + more)), known, Merged(order[..i], m.fields, acc));
  }

  /** The printed fields around the line of field i. */
  lemma BehindSplit(m: Request, order: seq<string>, i: nat) returns (more: string)
    requires IsOrder(order, m.fields) && i < |order|
    ensures Behind(m, order) == FieldLines(order[..i], m.fields) + (FieldLine(order[i], m.fields[order[i]]) + more)
  {
    hide FieldLines, FieldLine;
    var line, post := [order[i]], order[i + 1..];
    assert order == order[..i] + (line + post);
    LinesJoin(order[..i], line + post, m.fields);
    LinesJoin(line, post, m.fields);
    more := FieldLines(post, m.fields) + (CRLF + m.body);
    OneLine(m.fields, order[i]);
    Regroup(FieldLines(order[..i], m.fields), FieldLine(order[i], m.fields[order[i]]), FieldLines(post, m.fields), CRLF + m.body);
  }

  lemma OneLine(fields: Fields, name: string)
    requires name in fields
    ensures FieldLines([name], fields) == FieldLine(name, fields[name])
  {
  }

  /** A printed request that came back has a clean path. */
  lemma PathIsClean(m: Request, order: seq<string>, known: set<string>)
    requires FieldNames(known) && IsOrder(order, m.fields) && AllKnown(m.fields, known)
    requires "Method" in m.fields && "Path" in m.fields
    requires forall name :: name in m.fields && name != "Path" ==> Clean(m.fields[name])
    requires Clean(m.fields["Path"]) || (m.fields["Path"] != "" && ' ' !in m.fields["Path"])
    requires ParseRequest(PrintRequest(m, order), known) == Got(m, "")
    ensures Clean(m.fields["Path"])
  {
    hide ParseRequestLine, ParseFields, TillCRLF, FieldLines, VersionText, ToVersion, Clean, METHODS, PrintRequest, Until;
    var method', path, version, rest := m.fields["Method"], m.fields["Path"], VersionText(m.version), Behind(m, order);
    PrintedShape(m, order);
    if !Clean(path) {
      VersionTextIsClean(m.version);
      TillCRLFValue(version, rest);
      if ' ' in method' {
        FirstWords(method', " " + (path + (" " + (version + (CRLF + rest)))), path, known);
      } else if method' == "" {
        assert method' + (" " + (path + (" " + (version + (CRLF + rest))))) == " " + (path + (" " + (version + (CRLF + rest))));
        NoWord(path + (" " + (version + (CRLF + rest))));
      } else {
        ReadWords(method', path, version, rest);
        PathComesClean(m, order, known, map["Method" := method', "Path" := path]);
      }
    }
  }

  /** With a method of two words or more, the path that the request line gives is the second of them. */
  lemma FirstWords(m: string, tail: string, path: string, known: set<string>)
    requires Clean(m) && ' ' in m && !Clean(path) && tail != "" && tail[0] == ' '
    ensures var p := ParseRequest(m + tail, known);
            p.Got? && "Path" in p.value.fields ==> p.value.fields["Path"] != path
  {
    hide ParseFields, TillCRLF, ToVersion, METHODS, Until, Clean;
    NoSpace(m);
    Split(m);
    var n := Until(m, {' '});
    UntilIsFree(m, {' '});
    CleanPart(m, n);
    var word, more := m[..n], m[n + 1..];
    assert m + tail == word + (" " + (more + tail));
    TillSpaceToken(word, more + tail);
    assert (" " + (more + tail))[1..] == more + tail;
    SecondWord(m, n + 1, tail);
    var second := TillSpace(more + tail);
    var line := ParseRequestLine(m + tail);
    if line.Got? {
      ParseFieldsKeeps(line.rest, known, line.value.fields);
    }
  }

  /** The word found inside a clean text is clean. */
  lemma SecondWord(m: string, n: nat, tail: string)
    requires Clean(m) && n < |m| && tail != "" && tail[0] == ' '
    ensures var p := TillSpace(m[n..] + tail); p.Got? ==> Clean(p.value)
  {
    var more := m[n..];
    var k := Until(more, {' '});
    UntilIsFree(more, {' '});
    UntilPast(more[..k], more[k..] + tail, {' '});
    assert more + tail == more[..k] + (more[k..] + tail);
    assert Until(more[k..] + tail, {' '}) == 0;
    forall c | c in more[..k] ensures c in m && c != ' ' {}
  }

  /** A known method, a path and what else comes back together must have come from such a request. */
  lemma RequestBackward(m: Request, order: seq<string>, known: set<string>)
    requires FieldNames(known) && IsOrder(order, m.fields)
    requires ParseRequest(PrintRequest(m, order), known) == Got(m, "")
    ensures RequestComesBack(m, known)
  {
    hide ParseRequestLine, ParseFields, TillCRLF, FieldLines, ToVersion, Clean, METHODS, PrintRequest, Until, VersionText;
    var line := ParseRequestLine(PrintRequest(m, order));
    ReadLineGives(PrintRequest(m, order));
    MethodsAreClean(line.value.fields["Method"]);
    if line.rest != "" {
      ParseFieldsKeeps(line.rest, known, line.value.fields);
    }
    PathIsClean(m, order, known);
    PrintedShape(m, order);
    VersionTextIsClean(m.version);
    VersionNotEmpty(m.version);
    CleanLineComesBack(m.fields["Method"], m.fields["Path"], VersionText(m.version), Behind(m, order));
  }

  lemma VersionNotEmpty(v: Version)
    ensures VersionText(v) != ""
  {
  }

  /** A request comes back from its text exactly when a caller finds these conditions met; the order of the fields does not matter. */
  lemma RequestRoundTripIff(m: Request, order: seq<string>, known: set<string>)
    requires FieldNames(known) && IsOrder(order, m.fields)
    ensures ParseRequest(PrintRequest(m, order), known) == Got(m, "") <==> RequestComesBack(m, known)
  {
    hide *;
    if RequestComesBack(m, known) {
      RequestForward(m, order, known);
    }
    if ParseRequest(PrintRequest(m, order), known) == Got(m, "") {
      RequestBackward(m, order, known);
    }
  }

  // Responses.

  /** What a caller can check of a response before printing it. */
  ghost predicate ResponseComesBack(m: Response, known: set<string>) {
    && m.version != Unknown && m.code != 0 && AllKnown(m.fields, known) && AllClean(m.fields)
    && (m.fields == map[] ==> m.body == "")
  }

  lemma CodeComesBack(c: Code)
    ensures CodeText(c) != "" && ' ' !in CodeText(c)
    ensures ToCode(CodeText(c)) == c
  {
    assert IsCode(c);
    hide ToCode;
    if c == 0 {
      ZeroIsNoCode();
    } else {
      ThreeDigits(c);
      ToCodeOf(c / 100, c / 10 % 10, c % 10);
    }
  }

  lemma ZeroIsNoCode()
    ensures ToCode("0") == 0
  {
  }

  lemma ThreeDigits(c: nat)
    requires c < 1000
    ensures c / 100 < 10 && c == c / 100 * 100 + c / 10 % 10 * 10 + c % 10
  {
  }

  /** Three digits are read as their number, if it is a code. */
  lemma ToCodeOf(a: nat, b: nat, d: nat)
    requires a < 10 && b < 10 && d < 10
    ensures var c := a * 100 + b * 10 + d; ToCode([Digit(a), Digit(b), Digit(d)]) == if IsCode(c) then c else 0
  {
    hide IsCode;
    DigitBack(a);
    DigitBack(b);
    DigitBack(d);
  }

  lemma DigitBack(d: nat)
    requires d < 10
    ensures '0' <= Digit(d) <= '9' && (Digit(d) - '0') as nat == d
  {
  }

  function After(m: Response, order: seq<string>): string
    requires IsOrder(order, m.fields)
  {
    FieldLines(order, m.fields) + (CRLF + m.body)
  }

  /** The status line, for a version without spaces; the reason is skipped, whatever it says. */
  lemma ReadStatusLine(v: Version, c: Code, reason: string, rest: string)
    requires v != Unknown && Free(reason, EOL)
    ensures ParseResponseLine(VersionText(v) + (" " + (CodeText(c) + (" " + (reason + (CRLF + rest)))))) ==
            if c == 0 then Failed else Got(Response(v, c, map[], ""), rest)
  {
    hide TillSpace, TillCRLF, VersionText, ToVersion, CodeText, ToCode;
    VersionTextIsClean(v);
    VersionNotEmpty(v);
    CodeComesBack(c);
    var r2 := reason + (CRLF + rest);
    var r1 := CodeText(c) + (" " + r2);
    TillSpaceToken(VersionText(v), r1);
    TillSpaceToken(CodeText(c), r2);
    assert (" " + r1)[1..] == r1 && (" " + r2)[1..] == r2;
    SkipReason(reason, rest);
  }

  lemma {:induction false} SkipReason(reason: string, rest: string)
    requires Free(reason, EOL)
    ensures var p := TillCRLF(reason + (CRLF + rest)); p.Got? && p.rest == rest
  {
    if reason != "" && reason[0] == ' ' {
      assert reason == " " + reason[1..];
      assert reason + (CRLF + rest) == " " + (reason[1..] + (CRLF + rest));
      TillCRLFAfterSpace(reason[1..] + (CRLF + rest));
      SkipReason(reason[1..], rest);
    } else {
      TillCRLFText(reason, rest);
    }
  }

  lemma UnknownStatusLine(r: string)
    ensures !ParseResponseLine(VersionText(Unknown) + (" " + r)).Got?
  {
    assert VersionText(Unknown) + (" " + r) == "Unknown" + (" " + ("Version" + (" " + r)));
    TillSpaceToken("Unknown", "Version" + (" " + r));
  }

  lemma PrintedResponseShape(m: Response, reason: string, order: seq<string>)
    requires IsOrder(order, m.fields)
    ensures PrintResponse(m, reason, order) ==
            VersionText(m.version) + (" " + (CodeText(m.code) + (" " + (reason + (CRLF + After(m, order))))))
  {
    hide FieldLines, VersionText, CodeText;
  }

  /** Without fields the blank line is read as a field, and the body with it, at least in part. */
  lemma NoFieldsEatBody(body: string, known: set<string>)
    requires FieldNames(known)
    ensures var p := ParseFields(CRLF + body, known, map[]);
            if body == "" then p == Got(map[], "") else p.Got? ==> p.rest != body
  {
    if body == "" {
      assert CRLF + body == CRLF;
      BlankLineField(known);
    } else {
      hide TillColon, TillCRLF, CheckCRLF;
      LineEndThenBody(body);
      var c := TillColon(CRLF + body);
      TillCRLFShrinks(c.rest);
      var v := TillCRLF(c.rest);
      if v.Got? {
        CheckShrinks(v.rest);
        if v.rest != "" && CheckCRLF(v.rest).Got? && !CheckCRLF(v.rest).value {
          ParseFieldsKeeps(v.rest, known, WithField(known, map[], c.value, v.value));
        }
      }
    }
  }

  lemma CheckShrinks(r: string)
    ensures r != "" && CheckCRLF(r).Got? ==> |CheckCRLF(r).rest| <= |r|
  {
  }

  lemma BlankLineField(known: set<string>)
    requires FieldNames(known)
    ensures ParseFields(CRLF, known, map[]) == Got(map[], "")
  {
    NoSpaces(CRLF);
    UntilPast(CRLF, "", {':', ' '});
    assert CRLF + "" == CRLF && CRLF[..2] == CRLF && CRLF[2..] == "";
    assert TillColon(CRLF) == Got(CRLF, "");
    assert CRLF[0] in CRLF && !IsToken(CRLF);
    assert TillCRLF("") == Got("", "");
  }

  lemma LineEndThenBody(body: string)
    requires body != ""
    ensures TillColon(CRLF + body).Got? && |TillColon(CRLF + body).rest| < |body|
  {
    var r := CRLF + body;
    NoSpaces(r);
    UntilPast(CRLF, body, {':', ' '});
    ColonEats(body, r);
  }

  lemma ColonEats(body: string, r: string)
    requires body != "" && |r| == 2 + |body| && SkipSpaces(r) == r && Until(r, {':', ' '}) >= 2
    ensures TillColon(r).Got? && |TillColon(r).rest| < |body|
  {
    var n := Until(r, {':', ' '});
    UntilIsFree(r, {':', ' '});
    var b := r[n..];
    assert b != "" ==> b[0] == r[n];
    assert b != "" && b[0] == ' ' ==> Until(b, {':'}) >= 1;
  }

  /** A response comes back from its text exactly when a caller finds these conditions met. */
  lemma ResponseRoundTripIff(m: Response, reason: string, order: seq<string>, known: set<string>)
    requires FieldNames(known) && IsOrder(order, m.fields) && Free(reason, EOL)
    ensures ParseResponse(PrintResponse(m, reason, order), known) == Got(m, "") <==> ResponseComesBack(m, known)
  {
    hide ParseResponseLine, ParseFields, PrintResponse, FieldLines, VersionText, CodeText, Clean, Merged;
    PrintedResponseShape(m, reason, order);
    if m.version == Unknown {
      UnknownStatusLine(CodeText(m.code) + (" " + (reason + (CRLF + After(m, order)))));
    } else {
      ReadStatusLine(m.version, m.code, reason, After(m, order));
      if m.code != 0 {
        ResponseFields(m, order, known);
      }
    }
  }

  lemma NoFieldsNoLines(order: seq<string>, fields: Fields)
    requires IsOrder(order, fields)
    ensures fields == map[] ==> order == []
  {
    if order != [] {
      assert order[0] in fields;
    }
  }

  lemma ResponseFields(m: Response, order: seq<string>, known: set<string>)
    requires FieldNames(known) && IsOrder(order, m.fields)
    ensures After(m, order) != ""
    ensures ParseFields(After(m, order), known, map[]) == Got(m.fields, m.body) <==>
            AllKnown(m.fields, known) && AllClean(m.fields) && (m.fields == map[] ==> m.body == "")
  {
    hide ParseFields, Clean, Merged;
    ParseFieldsKeeps(After(m, order), known, map[]);
    if m.fields == map[] {
      NoFieldsNoLines(order, m.fields);
      assert After(m, order) == CRLF + m.body;
      NoFieldsEatBody(m.body, known);
    } else if AllKnown(m.fields, known) && AllClean(m.fields) {
      var name :| name in m.fields;
      assert name in order;
      ParseBlock(order, m.fields, m.body, known, map[]);
      MergedAll(order, m.fields, map[]);
    }
  }
}
