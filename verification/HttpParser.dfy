/**
  The parse functions of library/http/lib/parser.cpp with their shared cursor, and the printers. Each is
  proved against its function in HttpGrammar; ok is false where the source throws.
 */
module HttpParser {
  import opened HttpGrammar

  /** The cursor part of FullStream. */
  class FullStream {
    const buffer: string
    var pos: nat

    constructor (buffer: string)
      ensures this.buffer == buffer && pos == 0 && Valid() && Rest() == buffer
    {
      this.buffer, pos := buffer, 0;
    }

    ghost predicate Valid()
      reads this
    {
      pos <= |buffer|
    }

    /** remaining_buffer: what the cursor has not passed. */
    function Rest(): string
      reads this
      requires Valid()
    {
      buffer[pos..]
    }

    predicate Full()
      reads this
    {
      pos == |buffer|
    }
  }

  lemma UntilStep(s: string, start: nat, pos: nat, stop: set<char>)
    requires start <= pos <= |s| && Until(s[start..], stop) == pos - start + Until(s[pos..], stop)
    ensures pos == |s| || s[pos] in stop ==> Until(s[start..], stop) == pos - start
    ensures pos < |s| && s[pos] !in stop ==> Until(s[start..], stop) == pos + 1 - start + Until(s[pos + 1..], stop)
  {
    if pos < |s| {
      assert s[pos..][1..] == s[pos + 1..];
    }
  }

  /** The loop `while(*stream is not in stop && stream.remaining_buffer()) ++stream`. */
  method SkipUntil(stream: FullStream, stop: set<char>)
    requires stream.Valid()
    modifies stream
    ensures stream.Valid() && stream.pos == old(stream.pos) + Until(old(stream.Rest()), stop)
  {
    ghost var start := stream.pos;
    while !stream.Full() && stream.buffer[stream.pos] !in stop
      invariant start <= stream.pos <= |stream.buffer|
      invariant Until(stream.buffer[start..], stop) == stream.pos - start + Until(stream.Rest(), stop)
      decreases |stream.buffer| - stream.pos
    {
      UntilStep(stream.buffer, start, stream.pos, stop);
      stream.pos := stream.pos + 1;
    }
  }

  /** The loop that passes spaces. */
  method PassSpaces(stream: FullStream)
    requires stream.Valid()
    modifies stream
    ensures stream.Valid() && stream.Rest() == SkipSpaces(old(stream.Rest())) && stream.pos >= old(stream.pos)
  {
    while !stream.Full() && stream.buffer[stream.pos] == ' '
      invariant old(stream.pos) <= stream.pos <= |stream.buffer|
      invariant SkipSpaces(stream.Rest()) == SkipSpaces(old(stream.Rest()))
      decreases |stream.buffer| - stream.pos
    {
      assert stream.Rest()[1..] == stream.buffer[stream.pos + 1..];
      stream.pos := stream.pos + 1;
    }
  }

  lemma Slices(s: string, start: nat, n: nat)
    requires start + n <= |s|
    ensures s[start..][..n] == s[start..start + n] && s[start..][n..] == s[start + n..]
  {
  }

  method ParseTillSpace(stream: FullStream) returns (ok: bool, text: string)
    requires stream.Valid()
    modifies stream
    ensures stream.Valid()
    ensures TillSpace(old(stream.Rest())) == if ok then Got(text, stream.Rest()) else Failed
  {
    var start := stream.pos;
    SkipUntil(stream, {' '});
    Slices(stream.buffer, start, stream.pos - start);
    ok, text := start != stream.pos, stream.buffer[start..stream.pos];
  }

  method ParseTillColon(stream: FullStream) returns (ok: bool, text: string)
    requires stream.Valid()
    modifies stream
    ensures stream.Valid()
    ensures TillColon(old(stream.Rest())) == if ok then Got(text, stream.Rest()) else Failed
  {
    hide Until, SkipSpaces;
    PassSpaces(stream);
    var start := stream.pos;
    SkipUntil(stream, {':', ' '});
    Slices(stream.buffer, start, stream.pos - start);
    if start == stream.pos {
      return false, "";
    }
    ok, text := true, stream.buffer[start..stream.pos];
    ghost var b, colon := stream.Rest(), stream.pos;
    SkipUntil(stream, {':'});
    Slices(stream.buffer, colon, stream.pos - colon);
    if !stream.Full() {
      assert b[stream.pos - colon + 1..] == stream.buffer[stream.pos + 1..];
      stream.pos := stream.pos + 1;
    }
  }

  lemma TrimStep(s: string, start: nat, pos: nat)
    requires start < pos <= |s|
    ensures |TrimEnd(s[start..pos])| == if s[pos - 1] != ' ' then pos - start else |TrimEnd(s[start..pos - 1])|
  {
    assert s[start..pos][..pos - start - 1] == s[start..pos - 1];
  }

  lemma TrimNothing()
    ensures TrimEnd("") == ""
  {
  }

  lemma {:induction false} TrimIsPrefix(t: string)
    ensures |TrimEnd(t)| <= |t| && TrimEnd(t) == t[..|TrimEnd(t)|]
  {
    if t != "" && t[|t| - 1] == ' ' {
      TrimIsPrefix(t[..|t| - 1]);
    }
  }

  /**
    The text up to the line end; the loop keeps in end where it stops without its last spaces. The source
    looks one character back, so something must have been read before, as it is wherever it is called.
   */
  method ParseText(stream: FullStream) returns (text: string)
    requires stream.Valid() && stream.pos >= 1
    modifies stream
    ensures stream.Valid()
    ensures var r := old(stream.Rest()); var n := Until(r, EOL);
            text == TrimEnd(r[..n]) && stream.pos == old(stream.pos) + n
  {
    hide Until, TrimEnd, LookBack;
    var start, end := stream.pos, stream.pos;
    LookBackStarts(stream.buffer, start);
    while !stream.Full()
      invariant start <= stream.pos <= |stream.buffer| && end - start == LookBack(stream.buffer, start, stream.pos)
      invariant Until(stream.buffer[start..], EOL) == stream.pos - start + Until(stream.Rest(), EOL)
      decreases |stream.buffer| - stream.pos
    {
      if stream.buffer[stream.pos] in EOL {
        break;
      }
      UntilStep(stream.buffer, start, stream.pos, EOL);
      LookBackStep(stream.buffer, start, stream.pos, end);
      if stream.buffer[stream.pos - 1] != ' ' {
        end := stream.pos;
      }
      stream.pos := stream.pos + 1;
    }
    UntilStep(stream.buffer, start, stream.pos, EOL);
    LookBackStep(stream.buffer, start, stream.pos, end);
    if stream.buffer[stream.pos - 1] != ' ' {
      end := stream.pos;
    }
    LookBackEnds(stream.buffer, start, stream.pos, end);
    text := stream.buffer[start..end];
  }

  /** How long the text is without its last spaces, as far as the loop has looked: up to one character back. */
  function LookBack(s: string, start: nat, pos: nat): nat
    requires start <= pos <= |s| + 1 && start <= |s|
  {
    |TrimEnd(s[start..if pos > start then pos - 1 else start])|
  }

  lemma LookBackStarts(s: string, start: nat)
    requires start <= |s|
    ensures LookBack(s, start, start) == 0
  {
    assert s[start..start] == "";
    TrimNothing();
  }

  lemma LookBackStep(s: string, start: nat, pos: nat, end: nat)
    requires 1 <= pos && start <= pos <= |s| && end - start == LookBack(s, start, pos)
    ensures LookBack(s, start, pos + 1) == (if s[pos - 1] != ' ' then pos else end) - start
  {
    hide TrimEnd;
    if pos > start {
      TrimStep(s, start, pos);
    } else {
      assert s[start..start] == "";
      TrimNothing();
    }
  }

  lemma LookBackEnds(s: string, start: nat, pos: nat, end: nat)
    requires start <= pos <= |s| && end - start == LookBack(s, start, pos + 1)
    ensures start <= end <= pos && s[start..end] == TrimEnd(s[start..][..pos - start])
  {
    hide TrimEnd;
    Slices(s, start, pos - start);
    TrimIsPrefix(s[start..pos]);
    assert s[start..pos][..end - start] == s[start..end];
  }

  /** The line end, if the stream stands at one; ok is false for a CR without its LF. */
  method ParseCheckCRLF(stream: FullStream) returns (ok: bool, found: bool)
    requires stream.Valid() && !stream.Full()
    modifies stream
    ensures stream.Valid() && stream.pos >= old(stream.pos)
    ensures CheckCRLF(old(stream.Rest())) == if ok then Got(found, stream.Rest()) else Failed
    ensures ok && !found ==> stream.pos == old(stream.pos)
  {
    ok, found := true, false;
    if stream.buffer[stream.pos] == '\r' {
      stream.pos := stream.pos + 1;
      if stream.Full() || stream.buffer[stream.pos] != '\n' {
        return false, false;
      }
      stream.pos := stream.pos + 1;
      found := true;
    } else if stream.buffer[stream.pos] == '\n' {
      stream.pos := stream.pos + 1;
      found := true;
    }
  }

  method ParseTillCRLF(stream: FullStream) returns (ok: bool, text: string)
    requires stream.Valid() && stream.pos >= 1
    modifies stream
    ensures stream.Valid()
    ensures TillCRLF(old(stream.Rest())) == if ok then Got(text, stream.Rest()) else Failed
  {
    hide Until, SkipSpaces, TrimEnd, CheckCRLF;
    PassSpaces(stream);
    ghost var a, start := stream.Rest(), stream.pos;
    text := ParseText(stream);
    Slices(stream.buffer, start, stream.pos - start);
    assert a[..|a|] == a;
    ok := true;
    if !stream.Full() {
      var found;
      ok, found := ParseCheckCRLF(stream);
    }
  }

  /** header::parse_fields: one field line after the other, until the blank line or the end of the stream. */
  method ParseFieldLines(stream: FullStream, known: set<string>, start: Fields) returns (ok: bool, fields: Fields)
    requires stream.Valid()
    modifies stream
    ensures stream.Valid()
    ensures ParseFields(old(stream.Rest()), known, start) == if ok then Got(fields, stream.Rest()) else Failed
  {
    hide TillColon, TillCRLF, CheckCRLF;
    fields := start;
    ghost var whole := ParseFields(stream.Rest(), known, start);
    while true
      invariant stream.Valid()
      invariant ParseFields(stream.Rest(), known, fields) == whole
      decreases |stream.Rest()|
    {
      var name, value, end;
      ghost var r := stream.Rest();
      TillColonShrinks(r);
      ok, name := ParseTillColon(stream);
      if !ok { return; }
      TillCRLFShrinks(stream.Rest());
      ok, value := ParseTillCRLF(stream);
      if !ok { return; }
      if name in known {
        fields := fields[name := value];
      }
      if stream.Full() { return; }
      ok, end := ParseCheckCRLF(stream);
      if !ok || end { return; }
    }
  }

  lemma LinesStep(order: seq<string>, fields: Fields, i: nat)
    requires i < |order| && forall name :: name in order ==> name in fields
    ensures FieldLines(order[..i + 1], fields) == FieldLines(order[..i], fields) + FieldLine(order[i], fields[order[i]])
  {
    assert order[..i + 1] == order[..i] + [order[i]];
    LinesAppend(order[..i], order[i], fields);
  }

  lemma {:induction false} LinesAppend(front: seq<string>, name: string, fields: Fields)
    requires name in fields && forall n :: n in front ==> n in fields
    ensures forall n :: n in front + [name] ==> n in fields
    ensures FieldLines(front + [name], fields) == FieldLines(front, fields) + FieldLine(name, fields[name])
  {
    if front == [] {
      assert front + [name] == [name];
    } else {
      assert (front + [name])[1..] == front[1..] + [name];
      LinesAppend(front[1..], name, fields);
    }
  }

  /** The loop over the fields in both printers; order is the one in which the hash map is run through. */
  method PrintFields(text: string, fields: Fields, order: seq<string>) returns (ret: string)
    requires IsOrder(order, fields)
    ensures ret == text + FieldLines(order, fields) + CRLF
  {
    ret := text;
    for i := 0 to |order|
      invariant ret == text + FieldLines(order[..i], fields)
    {
      LinesStep(order, fields, i);
      ret := ret + order[i] + ": " + fields[order[i]] + CRLF;
    }
    assert order[..|order|] == order;
    ret := ret + CRLF;
  }

  class HttpRequest {
    var version: Version
    var fields: Fields
    var body: string

    ghost function Value(): Request
      reads this
    {
      Request(version, fields, body)
    }

    constructor ()
      ensures Value() == Request(Unknown, map[], "")
    {
      version, fields, body := Unknown, map[], "";
    }

    method ToString(order: seq<string>) returns (ret: string)
      requires IsOrder(order, fields)
      ensures ret == PrintRequest(Value(), order)
    {
      hide FieldLines, VersionText;
      ret := if "Method" in fields then fields["Method"] else "";
      ret := ret + " ";
      ret := ret + if "Path" in fields then fields["Path"] else "";
      ret := ret + " " + VersionText(version) + CRLF;
      ghost var line := ret;
      ret := PrintFields(ret, fields, order);
      if body != "" {
        ret := ret + body;
      }
      assert ret == line + (FieldLines(order, fields) + (CRLF + body));
    }

    /** parse_request_line: emplace leaves a field that is already there as it is. */
    method ParseLine(stream: FullStream) returns (ok: bool)
      requires stream.Valid() && Value() == Request(Unknown, map[], "")
      modifies stream, this
      ensures stream.Valid()
      ensures ok ==> body == ""
      ensures ParseRequestLine(old(stream.Rest())) == if ok then Got(Value(), stream.Rest()) else Failed
    {
      hide TillSpace, TillCRLF, METHODS;
      var text;
      ok, text := ParseTillSpace(stream);
      if !ok { return; }
      fields := if "Method" in fields then fields else fields["Method" := text];
      if fields["Method"] !in METHODS || stream.Full() { return false; }
      ghost var r1 := stream.Rest();
      stream.pos := stream.pos + 1;
      assert stream.Rest() == r1[1..];
      ok, text := ParseTillSpace(stream);
      if !ok { return; }
      fields := if "Path" in fields then fields else fields["Path" := text];
      if stream.Full() { return false; }
      ghost var r2 := stream.Rest();
      stream.pos := stream.pos + 1;
      assert stream.Rest() == r2[1..];
      ok, text := ParseTillCRLF(stream);
      if !ok { return; }
      version := ToVersion(text);
      ok := version != Unknown;
    }

    method Parse(stream: FullStream, known: set<string>) returns (ok: bool)
      requires stream.Valid() && Value() == Request(Unknown, map[], "")
      modifies stream, this
      ensures stream.Valid()
      ensures ParseRequest(old(stream.Rest()), known) == if ok then Got(Value(), "") else Failed
    {
      hide ParseRequestLine, ParseFields;
      ok := ParseLine(stream);
      assert stream.Full() ==> stream.Rest() == "";
      if ok && !stream.Full() {
        ok, fields := ParseFieldLines(stream, known, fields);
        assert stream.Full() ==> stream.Rest() == "";
        if ok && !stream.Full() {
          body := stream.Rest();
        }
      }
    }
  }

  class HttpResponse {
    var version: Version
    var code: Code
    var fields: Fields
    var body: string

    ghost function Value(): Response
      reads this
    {
      Response(version, code, fields, body)
    }

    constructor ()
      ensures Value() == Response(Unknown, 0, map[], "")
    {
      version, code, fields, body := Unknown, 0, map[], "";
    }

    method ToString(reason: string, order: seq<string>) returns (ret: string)
      requires IsOrder(order, fields)
      ensures ret == PrintResponse(Value(), reason, order)
    {
      hide FieldLines, VersionText, CodeText;
      ret := VersionText(version) + " " + CodeText(code) + " " + reason + CRLF;
      ghost var line := ret;
      ret := PrintFields(ret, fields, order);
      if body != "" {
        ret := ret + body;
      }
      assert ret == line + (FieldLines(order, fields) + (CRLF + body));
    }

    method ParseLine(stream: FullStream) returns (ok: bool)
      requires stream.Valid() && Value() == Response(Unknown, 0, map[], "")
      modifies stream, this
      ensures stream.Valid()
      ensures ok ==> body == ""
      ensures ParseResponseLine(old(stream.Rest())) == if ok then Got(Value(), stream.Rest()) else Failed
    {
      hide TillSpace, TillCRLF, ToCode;
      var text;
      ok, text := ParseTillSpace(stream);
      if !ok { return; }
      version := ToVersion(text);
      if version == Unknown || stream.Full() { return false; }
      ghost var r1 := stream.Rest();
      stream.pos := stream.pos + 1;
      assert stream.Rest() == r1[1..];
      ok, text := ParseTillSpace(stream);
      if !ok { return; }
      code := ToCode(text);
      if code == 0 || stream.Full() { return false; }
      ghost var r2 := stream.Rest();
      stream.pos := stream.pos + 1;
      assert stream.Rest() == r2[1..];
      ok, text := ParseTillCRLF(stream);
    }

    method Parse(stream: FullStream, known: set<string>) returns (ok: bool)
      requires stream.Valid() && Value() == Response(Unknown, 0, map[], "")
      modifies stream, this
      ensures stream.Valid()
      ensures ParseResponse(old(stream.Rest()), known) == if ok then Got(Value(), "") else Failed
    {
      hide ParseResponseLine, ParseFields;
      ok := ParseLine(stream);
      assert stream.Full() ==> stream.Rest() == "";
      if ok && !stream.Full() {
        ok, fields := ParseFieldLines(stream, known, fields);
        assert stream.Full() ==> stream.Rest() == "";
        if ok && !stream.Full() {
          body := stream.Rest();
        }
      }
    }
  }
}
