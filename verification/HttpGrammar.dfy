/**
  The text of HTTP/1 messages as library/http/lib/parser.cpp prints and reads it. A parse function takes
  what is left of the stream and gives what it read and what is left then.
 */
module HttpGrammar {
  datatype Parsed<T> = Failed | Got(value: T, rest: string)

  datatype Version = Unknown | V11 | V2

  type Fields = map<string, string>
  datatype Request = Request(version: Version, fields: Fields, body: string)
  datatype Response = Response(version: Version, code: Code, fields: Fields, body: string)

  const METHODS: set<string> := {"OPTIONS", "GET", "HEAD", "POST", "PUT", "DELETE", "TRACE", "CONNECT", "PRI"}

  predicate IsCode(c: nat) {
    || c == 0 || 100 <= c <= 101 || 200 <= c <= 206 || 300 <= c <= 305 || c == 307
    || 400 <= c <= 417 || 500 <= c <= 505
  }
  type Code = c: nat | IsCode(c)

  const CRLF := "\r\n"
  const EOL: set<char> := {'\r', '\n'}

  /** The field names of the source: tokens, the two that the request line fills in among them. */
  ghost predicate FieldNames(known: set<string>) {
    && "Method" in known && "Path" in known
    && forall name :: name in known ==> IsToken(name)
  }

  predicate IsToken(name: string) {
    name != "" && ' ' !in name && ':' !in name && '\r' !in name && '\n' !in name
  }

  // Printing.

  function VersionText(v: Version): string {
    match v
    case Unknown => "Unknown Version"
    case V11 => "HTTP/1.1"
    case V2 => "HTTP/2.0"
  }

  function Digit(d: nat): char
    requires d < 10
  {
    '0' + d as char
  }

  function CodeText(c: Code): string {
    assert IsCode(c);
    if c == 0 then "0" else [Digit(c / 100), Digit(c / 10 % 10), Digit(c % 10)]
  }

  function FieldLine(name: string, value: string): string {
    name + ": " + value + CRLF
  }

  /** The lines of the fields, in the order in which the hash map gives them. */
  function FieldLines(order: seq<string>, fields: Fields): string
    requires forall name :: name in order ==> name in fields
  {
    if order == [] then "" else FieldLine(order[0], fields[order[0]]) + FieldLines(order[1..], fields)
  }

  predicate IsOrder(order: seq<string>, fields: Fields) {
    && (forall name :: name in order ==> name in fields) && (forall name :: name in fields ==> name in order)
    && forall i, j :: 0 <= i < j < |order| ==> order[i] != order[j]
  }

  function Lookup(fields: Fields, name: string): string {
    if name in fields then fields[name] else ""
  }

  function RequestLine(m: Request): string {
    Lookup(m.fields, "Method") + " " + Lookup(m.fields, "Path") + " " + VersionText(m.version)
  }

  function PrintRequest(m: Request, order: seq<string>): string
    requires IsOrder(order, m.fields)
  {
    RequestLine(m) + CRLF + (FieldLines(order, m.fields) + (CRLF + m.body))
  }

  function PrintResponse(m: Response, reason: string, order: seq<string>): string
    requires IsOrder(order, m.fields)
  {
    VersionText(m.version) + " " + CodeText(m.code) + " " + reason + CRLF + (FieldLines(order, m.fields) + (CRLF + m.body))
  }

  // Reading.

  /** How many characters come before the first one in stop. */
  function Until(r: string, stop: set<char>): (n: nat)
    ensures n <= |r|
  {
    if r == "" || r[0] in stop then 0 else 1 + Until(r[1..], stop)
  }

  function SkipSpaces(r: string): (t: string)
    ensures |t| <= |r|
  {
    if r != "" && r[0] == ' ' then SkipSpaces(r[1..]) else r
  }

  function TrimEnd(t: string): string {
    if t != "" && t[|t| - 1] == ' ' then TrimEnd(t[..|t| - 1]) else t
  }

  function TillSpace(r: string): Parsed<string> {
    var n := Until(r, {' '});
    if n == 0 then Failed else Got(r[..n], r[n..])
  }

  function TillColon(r: string): Parsed<string> {
    var a := SkipSpaces(r);
    var n := Until(a, {':', ' '});
    if n == 0 then Failed else
      var b := a[n..];
      var m := Until(b, {':'});
      Got(a[..n], if m < |b| then b[m + 1..] else "")
  }

  /** The end of line at the front of r, if there is one; Failed for a lone CR. */
  function CheckCRLF(r: string): Parsed<bool>
    requires r != ""
  {
    if r[0] == '\r' then
      if |r| < 2 || r[1] != '\n' then Failed else Got(true, r[2..])
    else if r[0] == '\n' then Got(true, r[1..])
    else Got(false, r)
  }

  function TillCRLF(r: string): Parsed<string> {
    var a := SkipSpaces(r);
    var n := Until(a, EOL);
    if n == |a| then Got(TrimEnd(a), "") else
      match CheckCRLF(a[n..])
      case Failed => Failed
      case Got(_, rest) => Got(TrimEnd(a[..n]), rest)
  }

  function ToVersion(text: string): Version {
    if text == "HTTP/1.1" then V11 else if text == "HTTP/2.0" then V2 else Unknown
  }

  function ToCode(text: string): Code {
    if |text| != 3 || !forall i | 0 <= i < 3 :: '0' <= text[i] <= '9' then 0 else
      var c := (text[0] - '0') as nat * 100 + (text[1] - '0') as nat * 10 + (text[2] - '0') as nat;
      if IsCode(c) then c else 0
  }

  function WithField(known: set<string>, fields: Fields, name: string, value: string): Fields {
    if name in known then fields[name := value] else fields
  }

  lemma TillColonShrinks(r: string)
    ensures TillColon(r).Got? ==> |TillColon(r).rest| < |r|
  {
  }

  lemma TillCRLFShrinks(r: string)
    ensures TillCRLF(r).Got? ==> |TillCRLF(r).rest| <= |r|
  {
  }

  function ParseFields(r: string, known: set<string>, fields: Fields): Parsed<Fields>
    decreases |r|
  {
    match TillColon(r)
    case Failed => Failed
    case Got(name, r1) =>
      match TillCRLF(r1)
      case Failed => Failed
      case Got(value, r2) =>
        var f := WithField(known, fields, name, value);
        if r2 == "" then Got(f, "") else
          match CheckCRLF(r2)
          case Failed => Failed
          case Got(end, r3) =>
            TillColonShrinks(r);
            TillCRLFShrinks(r1);
            if end then Got(f, r3) else ParseFields(r2, known, f)
  }

  function ParseRequestLine(r: string): Parsed<Request> {
    match TillSpace(r)
    case Failed => Failed
    case Got(method', r1) =>
      if method' !in METHODS || r1 == "" then Failed else
        match TillSpace(r1[1..])
        case Failed => Failed
        case Got(path, r2) =>
          if r2 == "" then Failed else
            match TillCRLF(r2[1..])
            case Failed => Failed
            case Got(text, r3) =>
              if ToVersion(text) == Unknown then Failed
              else Got(Request(ToVersion(text), map["Method" := method', "Path" := path], ""), r3)
  }

  function ParseRequest(r: string, known: set<string>): Parsed<Request> {
    match ParseRequestLine(r)
    case Failed => Failed
    case Got(m, rest) =>
      if rest == "" then Got(m, "") else
        match ParseFields(rest, known, m.fields)
        case Failed => Failed
        case Got(fields, body) => Got(Request(m.version, fields, body), "")
  }

  function ParseResponseLine(r: string): Parsed<Response> {
    match TillSpace(r)
    case Failed => Failed
    case Got(text, r1) =>
      if ToVersion(text) == Unknown || r1 == "" then Failed else
        match TillSpace(r1[1..])
        case Failed => Failed
        case Got(codeText, r2) =>
          if ToCode(codeText) == 0 || r2 == "" then Failed else
            match TillCRLF(r2[1..])
            case Failed => Failed
            case Got(_, r3) => Got(Response(ToVersion(text), ToCode(codeText), map[], ""), r3)
  }

  function ParseResponse(r: string, known: set<string>): Parsed<Response> {
    match ParseResponseLine(r)
    case Failed => Failed
    case Got(m, rest) =>
      if rest == "" then Got(m, "") else
        match ParseFields(rest, known, m.fields)
        case Failed => Failed
        case Got(fields, body) => Got(Response(m.version, m.code, fields, body), "")
  }
}
