/**
  Log format strings. core/include/mms/log/varadic.h scans a format string three times at compile time, to
  count the arguments, to list their types and to check them against the call; createLogsString of
  core/src/log.cpp scans it a fourth time, next to the packed arguments. Here each scan is a fold of its step.
 */
module FormatString {
  type Byte = n: int | 0 <= n < 256

  datatype Type =
    | Int8 | UInt8 | Int16 | UInt16 | Int32 | UInt32 | Int64 | UInt64 | Float | Double | LongDouble
    | SocketAddress | Address | Port | Guid | ErrorCode | ModuleId | Level | Bad

  /** sizeof, as type_length and sizeofvaradic have it. */
  function Size(t: Type): nat {
    match t
    case Int8 => 1 case UInt8 => 1 case Int16 => 2 case UInt16 => 2 case Int32 => 4 case UInt32 => 4
    case Int64 => 8 case UInt64 => 8 case Float => 4 case Double => 8 case LongDouble => 16
    case SocketAddress => 18 case Address => 16 case Port => 2 case Guid => 16
    case ErrorCode => 2 case ModuleId => 4 case Level => 1 case Bad => 0
  }

  function Sizes(ts: seq<Type>): nat {
    if ts == [] then 0 else Sizes(ts[..|ts| - 1]) + Size(ts[|ts| - 1])
  }

  datatype Mode = Copy | Specifier | Custom
  datatype Modifier = NoModifier | H | HH | L | LL | BigL

  const SIGNED: set<char> := {'d', 'i'}
  const UNSIGNED: set<char> := {'u', 'o', 'x', 'X'}
  const REALS: set<char> := {'f', 'F'}
  const CUSTOM: set<char> := {'n', 'N', 'i', 'I', 'p', 'e', 'E', 'g', 'G', 'v', 'c', 'm', 'l'}

  function SignedType(m: Modifier): Type {
    match m case NoModifier => Int32 case H => Int16 case HH => Int8 case L => Int64 case LL => Int64 case BigL => Bad
  }

  function UnsignedType(m: Modifier): Type {
    match m case NoModifier => UInt32 case H => UInt16 case HH => UInt8 case L => UInt64 case LL => UInt64 case BigL => Bad
  }

  function CharType(m: Modifier): Type {
    match m case NoModifier => Int8 case L => UInt16 case _ => Bad
  }

  function RealType(m: Modifier): Type {
    match m case NoModifier => Double case H => Float case BigL => LongDouble case _ => Bad
  }

  function CustomType(c: char): Type {
    if c == 'n' || c == 'N' then SocketAddress
    else if c == 'i' || c == 'I' then Address
    else if c == 'p' then Port
    else if c == 'e' || c == 'c' then Int32
    else if c == 'E' then ErrorCode
    else if c == 'g' || c == 'G' then Guid
    else if c == 'v' then UInt32
    else if c == 'm' then ModuleId
    else if c == 'l' then Level
    else Bad
  }

  /** What the specifier c asks for, with what modifiers came before it; Bad if there is no such specifier. */
  function SpecifierType(c: char, m: Modifier): Type {
    if c in SIGNED then SignedType(m) else if c in UNSIGNED then UnsignedType(m)
    else if c in REALS then RealType(m) else if c == 'c' then CharType(m) else Bad
  }

  predicate IsSpecifier(c: char) {
    c == 'c' || c in SIGNED || c in UNSIGNED || c in REALS
  }

  // formatstring_count.

  datatype Counter = Counter(mode: Mode, count: nat)

  function CountStep(s: Counter, c: char): Counter {
    match s.mode
    case Copy => if c == '%' then s.(mode := Specifier) else s
    case Specifier =>
      if c == '%' then s.(mode := Copy)
      else if IsSpecifier(c) then Counter(Copy, s.count + 1)
      else if c == 'v' then s.(mode := Custom)
      else s
    case Custom => if c in CUSTOM then Counter(Copy, s.count + 1) else s
  }

  // formatstring_type_list.

  datatype Lister = Lister(mode: Mode, modifier: Modifier, types: seq<Type>, length: nat)

  function Listed(s: Lister, t: Type): Lister {
    Lister(Copy, s.modifier, s.types + [t], s.length + Size(t))
  }

  function Rejected(s: Lister): Lister {
    s.(types := s.types + [Bad])
  }

  function ListStep(s: Lister, c: char): Lister {
    match s.mode
    case Copy => if c == '%' then s.(mode := Specifier, modifier := NoModifier) else s
    case Specifier =>
      if c == '%' then s.(mode := Copy)
      else if c in REALS then Listed(s, RealType(s.modifier))
      else if IsSpecifier(c) then
        // nothing is listed for a modifier that does not go with the specifier
        if SpecifierType(c, s.modifier) == Bad then s.(mode := Copy) else Listed(s, SpecifierType(c, s.modifier))
      else if c == 'v' then if s.modifier != NoModifier then Rejected(s) else s.(mode := Custom)
      else if c == 'h' then
        if s.modifier == NoModifier then s.(modifier := H) else if s.modifier == H then s.(modifier := HH) else Rejected(s)
      else if c == 'l' then
        if s.modifier == NoModifier then s.(modifier := L) else if s.modifier == L then s.(modifier := LL) else Rejected(s)
      else Rejected(s)
    case Custom => Listed(s, CustomType(c))
  }

  // check_formatstring_helper.

  /** Failed stands for any of the codes other than check_success. */
  datatype Checker = Checking(mode: Mode, modifier: Modifier, index: nat) | Failed

  function Checked(s: Checker, ts: seq<Type>, t: Type): Checker
    requires s.Checking? && s.index < |ts|
  {
    if t != Bad && ts[s.index] == t then Checking(Copy, NoModifier, s.index + 1) else Failed
  }

  function CheckStep(s: Checker, ts: seq<Type>, c: char): Checker {
    match s
    case Failed => Failed
    case Checking(mode, modifier, index) =>
      match mode
      case Copy => if c == '%' then Checking(Specifier, NoModifier, index) else s
      case Specifier =>
        // the arguments must not be used up when a specifier begins, not even for %%
        if index >= |ts| then Failed
        else if c == '%' then if modifier != NoModifier then Failed else s.(mode := Copy)
        else if IsSpecifier(c) then Checked(s, ts, SpecifierType(c, modifier))
        else if c == 'v' then if modifier != NoModifier then Failed else s.(mode := Custom)
        else if c == 'h' then
          if modifier == NoModifier then s.(modifier := H) else if modifier == H then s.(modifier := HH) else Failed
        else if c == 'l' then
          if modifier == NoModifier then s.(modifier := L) else if modifier == L then s.(modifier := LL) else Failed
        else if c == 'L' then if modifier == NoModifier then s.(modifier := BigL) else Failed
        else Failed
      case Custom => if index >= |ts| then Failed else Checked(s, ts, CustomType(c))
  }

  // createLogsString.

  /** A piece of the text: a character, or an argument to be rendered as its specifier says. */
  datatype Piece = Literal(c: char) | Value(specifier: char, t: Type, bytes: seq<Byte>) | UnknownMessage

  /** overrun says that bytes behind the packed arguments were read. */
  datatype Creator = Creator(mode: Mode, modifier: Modifier, offset: nat, pieces: seq<Piece>, overrun: bool)

  function Consume(s: Creator, data: seq<Byte>, c: char, t: Type, mode: Mode): Creator {
    var end := s.offset + Size(t);
    if end > |data| then Creator(mode, s.modifier, end, s.pieces, true)
    else Creator(mode, s.modifier, end, s.pieces + [Value(c, t, data[s.offset..end])], s.overrun)
  }

  function CreateStep(s: Creator, data: seq<Byte>, c: char): Creator {
    match s.mode
    case Copy =>
      if c == '%' then s.(mode := Specifier, modifier := NoModifier) else s.(pieces := s.pieces + [Literal(c)])
    case Specifier =>
      if c == '%' then s.(mode := Copy, pieces := s.pieces + [Literal(c)])
      else if c in SIGNED || c in UNSIGNED then
        if SpecifierType(c, s.modifier) == Bad then s.(mode := Copy) else Consume(s, data, c, SpecifierType(c, s.modifier), Copy)
      else if c == 'f' then Consume(s, data, c, if s.modifier == L then Double else Float, Copy)
      else if c == 'c' then Consume(s, data, c, Int8, Specifier)     // the mode stays
      else if c == 'v' then s.(mode := Custom)
      else if c == 'h' then s.(modifier := if s.modifier == H then HH else H)
      else if c == 'l' then s.(modifier := if s.modifier == L then LL else L)
      else s.(mode := Copy)
    case Custom =>
      if CustomType(c) == Bad then s.(mode := Copy, pieces := s.pieces + [UnknownMessage])
      else Consume(s, data, c, CustomType(c), Copy)
  }

  // The whole scans. The first three see the closing NUL of the literal as well; there is none inside it.

  type Format = s: string | '\0' !in s

  const NUL: string := "\0"

  function CountScan(s: Counter, fmt: string): Counter
    decreases |fmt|
  {
    if fmt == "" then s else CountScan(CountStep(s, fmt[0]), fmt[1..])
  }

  function ListScan(s: Lister, fmt: string): Lister
    decreases |fmt|
  {
    if fmt == "" then s else ListScan(ListStep(s, fmt[0]), fmt[1..])
  }

  function CheckScan(s: Checker, ts: seq<Type>, fmt: string): Checker
    decreases |fmt|
  {
    if fmt == "" then s else CheckScan(CheckStep(s, ts, fmt[0]), ts, fmt[1..])
  }

  function CreateScan(s: Creator, data: seq<Byte>, fmt: string): Creator
    decreases |fmt|
  {
    if fmt == "" then s else CreateScan(CreateStep(s, data, fmt[0]), data, fmt[1..])
  }

  function Count(fmt: Format): nat {
    CountScan(Counter(Copy, 0), fmt + NUL).count
  }

  /** The type list; a string that ends inside a specifier gets one Bad more. */
  function TypeList(fmt: Format): Lister {
    var s := ListScan(Lister(Copy, NoModifier, [], 0), fmt + NUL);
    if s.mode != Copy then Rejected(s) else s
  }

  /** check_formatstring_helper returns check_success. */
  predicate Accepts(fmt: Format, ts: seq<Type>) {
    CheckScan(Checking(Copy, NoModifier, 0), ts, fmt + NUL).Checking?
  }

  function Create(fmt: Format, data: seq<Byte>): Creator {
    CreateScan(Creator(Copy, NoModifier, 0, [], false), data, fmt)
  }

  // The arguments of a call.

  datatype Arg = Arg(t: Type, bytes: seq<Byte>)

  predicate IsArg(a: Arg) {
    |a.bytes| == Size(a.t)
  }

  type Args = args: seq<Arg> | forall a :: a in args ==> IsArg(a)

  function Types(args: seq<Arg>): seq<Type> {
    seq(|args|, i requires 0 <= i < |args| => args[i].t)
  }

  /** What copyvaradic writes: the arguments one behind the other. */
  function Pack(args: Args): (data: seq<Byte>)
    decreases |args|
  {
    if args == [] then [] else args[0].bytes + Pack(args[1..])
  }

  /** The arguments that a text shows, in its order. */
  function Shown(pieces: seq<Piece>): seq<Arg> {
    if pieces == [] then [] else
      var front, p := Shown(pieces[..|pieces| - 1]), pieces[|pieces| - 1];
      if p.Value? then front + [Arg(p.t, p.bytes)] else front
  }

  /** The text of the reader shows exactly these arguments and takes exactly their bytes. */
  predicate ReadsBack(fmt: Format, args: Args) {
    var r := Create(fmt, Pack(args));
    !r.overrun && r.offset == |Pack(args)| && Shown(r.pieces) == args
  }

  /** The specifier letters that stand behind a % in fmt, as the counter meets them. */
  function UsedFrom(s: Counter, fmt: string): set<char>
    decreases |fmt|
  {
    if fmt == "" then {} else
      (if s.mode == Specifier && IsSpecifier(fmt[0]) then {fmt[0]} else {}) + UsedFrom(CountStep(s, fmt[0]), fmt[1..])
  }

  function Used(fmt: Format): set<char> {
    UsedFrom(Counter(Copy, 0), fmt)
  }

  /** Characters and reals: what the reader does not treat as the writer does. */
  const MISREAD: set<char> := {'c', 'f', 'F'}

  // The four scans run in step.

  lemma {:induction false} PackSplit(args: Args, i: nat)
    requires i <= |args|
    ensures Pack(args) == Pack(args[..i]) + Pack(args[i..])
    decreases |args|
  {
    if i == 0 {
      assert args[..0] == [] && args[0..] == args;
    } else {
      PackSplit(args[1..], i - 1);
      assert args[1..][..i - 1] == args[..i][1..] && args[1..][i - 1..] == args[i..];
      Regroup(args[0].bytes, Pack(args[..i][1..]), Pack(args[i..]));
    }
  }

  lemma Regroup(a: seq<Byte>, b: seq<Byte>, c: seq<Byte>)
    ensures (a + b) + c == a + (b + c)
  {
  }

  lemma {:induction false} PackOne(a: Arg)
    requires IsArg(a)
    ensures Pack([a]) == a.bytes
  {
    assert Pack([]) == [] && a.bytes + [] == a.bytes;
  }

  /** Where the bytes of argument i lie in the packed data. */
  lemma PackAt(args: Args, i: nat)
    requires i < |args|
    ensures |Pack(args[..i + 1])| == |Pack(args[..i])| + Size(args[i].t) <= |Pack(args)|
    ensures Pack(args)[|Pack(args[..i])|..|Pack(args[..i + 1])|] == args[i].bytes
  {
    hide Pack;
    PackSplit(args, i + 1);
    PackSplit(args[..i + 1], i);
    assert args[..i + 1][..i] == args[..i] && args[..i + 1][i..] == [args[i]] && args[i] in args;
    PackOne(args[i]);
    Middle(Pack(args), Pack(args[..i]), args[i].bytes, Pack(args[i + 1..]));
  }

  lemma Middle(data: seq<Byte>, a: seq<Byte>, b: seq<Byte>, c: seq<Byte>)
    requires data == (a + b) + c
    ensures data[|a|..|a + b|] == b
  {
  }

  /** The states of the four scans belong together: the same mode, and the first args all read. */
  ghost predicate InStep(cs: Counter, ls: Lister, ks: Checker, rs: Creator, args: Args) {
    && ks.Checking? && cs.mode == ls.mode == ks.mode == rs.mode
    && (ks.mode == Specifier ==> ls.modifier == ks.modifier == rs.modifier)
    && cs.count == ks.index <= |args|
    && ls.types == Types(args[..ks.index]) && ls.length == |Pack(args[..ks.index])|
    && rs.offset == |Pack(args[..ks.index])| && !rs.overrun && Shown(rs.pieces) == args[..ks.index]
  }

  lemma ShownLiteral(pieces: seq<Piece>, p: Piece)
    ensures Shown(pieces + [p]) == Shown(pieces) + if p.Value? then [Arg(p.t, p.bytes)] else []
  {
    assert (pieces + [p])[..|pieces|] == pieces;
    assert Shown(pieces) + [] == Shown(pieces);
  }

  /** The reader takes the next argument. */
  lemma TakeOne(rs: Creator, args: Args, i: nat, c: char, mode: Mode)
    requires i < |args| && rs.offset == |Pack(args[..i])| && !rs.overrun && Shown(rs.pieces) == args[..i]
    ensures var r := Consume(rs, Pack(args), c, args[i].t, mode);
            r.offset == |Pack(args[..i + 1])| && !r.overrun && Shown(r.pieces) == args[..i + 1]
  {
    hide Pack, Shown;
    PackAt(args, i);
    ShownLiteral(rs.pieces, Value(c, args[i].t, args[i].bytes));
    assert args[..i + 1] == args[..i] + [args[i]];
    assert args[i] == Arg(args[i].t, args[i].bytes);
  }

  /** A specifier that all four treat alike: one argument more. */
  lemma ReadOne(ls: Lister, rs: Creator, args: Args, i: nat, c: char)
    requires i < |args| && ls.types == Types(args[..i]) && ls.length == |Pack(args[..i])|
    requires rs.offset == |Pack(args[..i])| && !rs.overrun && Shown(rs.pieces) == args[..i]
    ensures var l := Listed(ls, args[i].t); l.types == Types(args[..i + 1]) && l.length == |Pack(args[..i + 1])|
    ensures var r := Consume(rs, Pack(args), c, args[i].t, Copy);
            r.offset == |Pack(args[..i + 1])| && !r.overrun && Shown(r.pieces) == args[..i + 1]
  {
    hide Pack, Shown;
    PackAt(args, i);
    TakeOne(rs, args, i, c, Copy);
    assert args[..i + 1] == args[..i] + [args[i]];
    assert Types(args[..i + 1]) == Types(args[..i]) + [args[i].t];
  }

  lemma StepInStep(cs: Counter, ls: Lister, ks: Checker, rs: Creator, args: Args, c: char)
    requires InStep(cs, ls, ks, rs, args) && CheckStep(ks, Types(args), c).Checking?
    requires cs.mode == Specifier ==> c !in MISREAD && c != 'L'
    ensures InStep(CountStep(cs, c), ListStep(ls, c), CheckStep(ks, Types(args), c), CreateStep(rs, Pack(args), c), args)
  {
    hide CountStep, ListStep, CheckStep, CreateStep, InStep;
    SameMode(cs, ls, ks, rs, args);
    if ks.mode == Copy {
      CopyInStep(cs, ls, ks, rs, args, c);
    } else if ks.mode == Custom {
      CustomInStep(cs, ls, ks, rs, args, c);
    } else if IsSpecifier(c) {
      SpecifierInStep(cs, ls, ks, rs, args, c);
    } else {
      ModifierInStep(cs, ls, ks, rs, args, c);
    }
  }

  lemma CopyInStep(cs: Counter, ls: Lister, ks: Checker, rs: Creator, args: Args, c: char)
    requires InStep(cs, ls, ks, rs, args) && CheckStep(ks, Types(args), c).Checking?
    requires ks.mode == Copy
    ensures InStep(CountStep(cs, c), ListStep(ls, c), CheckStep(ks, Types(args), c), CreateStep(rs, Pack(args), c), args)
  {
    hide Pack, Shown;
    ShownLiteral(rs.pieces, Literal(c));
  }

  lemma CustomInStep(cs: Counter, ls: Lister, ks: Checker, rs: Creator, args: Args, c: char)
    requires InStep(cs, ls, ks, rs, args) && CheckStep(ks, Types(args), c).Checking?
    requires ks.mode == Custom
    ensures InStep(CountStep(cs, c), ListStep(ls, c), CheckStep(ks, Types(args), c), CreateStep(rs, Pack(args), c), args)
  {
    hide Pack, Shown, CustomType, SpecifierType, Consume;
    CustomKnown(c);
    ReadOne(ls, rs, args, ks.index, c);
    ConsumeMode(rs, Pack(args), c, args[ks.index].t, Copy);
  }

  lemma SpecifierInStep(cs: Counter, ls: Lister, ks: Checker, rs: Creator, args: Args, c: char)
    requires InStep(cs, ls, ks, rs, args) && CheckStep(ks, Types(args), c).Checking?
    requires ks.mode == Specifier && IsSpecifier(c) && c !in MISREAD
    ensures InStep(CountStep(cs, c), ListStep(ls, c), CheckStep(ks, Types(args), c), CreateStep(rs, Pack(args), c), args)
  {
    hide Pack, Shown, SignedType, UnsignedType, CustomType, RealType, CharType, Consume;
    ReadOne(ls, rs, args, ks.index, c);
    ConsumeMode(rs, Pack(args), c, args[ks.index].t, Copy);
  }

  lemma ConsumeMode(rs: Creator, data: seq<Byte>, c: char, t: Type, mode: Mode)
    ensures Consume(rs, data, c, t, mode).mode == mode && Consume(rs, data, c, t, mode).modifier == rs.modifier
  {
  }

  /** %% and what may stand between a % and its specifier. */
  lemma ModifierInStep(cs: Counter, ls: Lister, ks: Checker, rs: Creator, args: Args, c: char)
    requires InStep(cs, ls, ks, rs, args) && CheckStep(ks, Types(args), c).Checking?
    requires ks.mode == Specifier && !IsSpecifier(c) && c != 'L'
    ensures InStep(CountStep(cs, c), ListStep(ls, c), CheckStep(ks, Types(args), c), CreateStep(rs, Pack(args), c), args)
  {
    hide Pack, Shown, Types;
    ShownLiteral(rs.pieces, Literal(c));
  }

  lemma CustomKnown(c: char)
    ensures CustomType(c) != Bad <==> c in CUSTOM
  {
  }

  lemma {:induction false} ScansInStep(cs: Counter, ls: Lister, ks: Checker, rs: Creator, args: Args, fmt: string)
    requires InStep(cs, ls, ks, rs, args) && CheckScan(ks, Types(args), fmt + NUL).Checking?
    requires UsedFrom(cs, fmt) !! MISREAD
    ensures InStep(CountScan(cs, fmt + NUL), ListScan(ls, fmt + NUL), CheckScan(ks, Types(args), fmt + NUL),
                   CreateScan(rs, Pack(args), fmt), args)
    ensures CheckScan(ks, Types(args), fmt + NUL).mode == Copy
    decreases |fmt|
  {
    hide InStep, Pack, Shown;
    if fmt == "" {
      assert fmt + NUL == NUL && NUL[1..] == "";
      AtNul(cs, ls, ks, rs, args);
    } else {
      assert (fmt + NUL)[1..] == fmt[1..] + NUL;
      if CheckStep(ks, Types(args), fmt[0]).Failed? {
        FailedStays(Types(args), fmt[1..] + NUL);
      }
      SameMode(cs, ls, ks, rs, args);
      if ks.mode == Specifier && fmt[0] == 'L' {
        BigLNeedsReal(cs, ks, Types(args), fmt);
      }
      StepInStep(cs, ls, ks, rs, args, fmt[0]);
      ScansInStep(CountStep(cs, fmt[0]), ListStep(ls, fmt[0]), CheckStep(ks, Types(args), fmt[0]),
                  CreateStep(rs, Pack(args), fmt[0]), args, fmt[1..]);
    }
  }

  /** The check knows one modifier that the list does not; only a real can follow it. */
  lemma BigLNeedsReal(cs: Counter, ks: Checker, ts: seq<Type>, fmt: string)
    requires ks.Checking? && ks.mode == Specifier && cs.mode == Specifier && fmt != "" && fmt[0] == 'L'
    requires UsedFrom(cs, fmt) !! MISREAD
    ensures CheckScan(ks, ts, fmt + NUL) == Failed
  {
    var k := CheckStep(ks, ts, 'L');
    assert (fmt + NUL)[1..] == fmt[1..] + NUL;
    var rest := fmt[1..] + NUL;
    if k.Checking? {
      if fmt[1..] != "" && IsSpecifier(fmt[1]) {
        assert fmt[1] in UsedFrom(cs, fmt[1..]);
      }
      assert CheckStep(k, ts, rest[0]) == Failed;
      FailedStays(ts, rest[1..]);
    } else {
      FailedStays(ts, rest);
    }
  }

  lemma SameMode(cs: Counter, ls: Lister, ks: Checker, rs: Creator, args: Args)
    requires InStep(cs, ls, ks, rs, args)
    ensures ks.Checking? && cs.mode == ks.mode
  {
  }

  lemma AtNul(cs: Counter, ls: Lister, ks: Checker, rs: Creator, args: Args)
    requires InStep(cs, ls, ks, rs, args) && CheckScan(ks, Types(args), NUL).Checking?
    ensures InStep(CountScan(cs, NUL), ListScan(ls, NUL), CheckScan(ks, Types(args), NUL), CreateScan(rs, Pack(args), ""), args)
    ensures CheckScan(ks, Types(args), NUL).mode == Copy
  {
    hide Pack, Shown;
    assert NUL[1..] == "";
    assert CheckScan(ks, Types(args), NUL) == CheckStep(ks, Types(args), '\0');
  }

  lemma {:induction false} FailedStays(ts: seq<Type>, fmt: string)
    ensures CheckScan(Failed, ts, fmt) == Failed
    decreases |fmt|
  {
    if fmt != "" {
      FailedStays(ts, fmt[1..]);
    }
  }

  /**
    The scanners agree on every accepted string without characters and reals: the count is the length of the
    type list, the list is that of the arguments, and the reader shows each of them in order out of exactly
    its bytes. Arguments behind the last specifier are not noticed by any of the four.
   */
  lemma ScannersAgree(fmt: Format, args: Args)
    requires Accepts(fmt, Types(args)) && Used(fmt) !! MISREAD
    ensures var n := Count(fmt);
            && n == |TypeList(fmt).types| <= |args|
            && TypeList(fmt).types == Types(args[..n]) && TypeList(fmt).length == |Pack(args[..n])|
            && var r := Create(fmt, Pack(args));
               !r.overrun && r.offset == TypeList(fmt).length && Shown(r.pieces) == args[..n]
  {
    hide Pack, Shown, CountScan, ListScan, CheckScan, CreateScan, UsedFrom;
    StartInStep(args);
    ScansInStep(Counter(Copy, 0), Lister(Copy, NoModifier, [], 0), Checking(Copy, NoModifier, 0),
                Creator(Copy, NoModifier, 0, [], false), args, fmt);
  }

  lemma StartInStep(args: Args)
    ensures InStep(Counter(Copy, 0), Lister(Copy, NoModifier, [], 0), Checking(Copy, NoModifier, 0),
                   Creator(Copy, NoModifier, 0, [], false), args)
  {
    assert args[..0] == [];
  }

  /** With as many arguments as specifiers, which the source asserts as well, everything is read back. */
  lemma AcceptedReadsBack(fmt: Format, args: Args)
    requires Accepts(fmt, Types(args)) && Count(fmt) == |args| && Used(fmt) !! MISREAD
    ensures ReadsBack(fmt, args) && TypeList(fmt).types == Types(args) && TypeList(fmt).length == |Pack(args)|
  {
    hide Pack, Shown, Create, TypeList, Count, Used, Accepts;
    ScannersAgree(fmt, args);
    assert args[..|args|] == args;
  }

  // The text: what stands between the specifiers is copied, and each specifier is replaced by its argument.

  /** A format with its arguments put in, read from a place in the given mode; types and bytes play no part in it. */
  function Expand(mode: Mode, fmt: string, args: Args): seq<Piece>
    decreases |fmt|
  {
    if fmt == "" then [] else
      var c, rest := fmt[0], fmt[1..];
      match mode
      case Copy => if c == '%' then Expand(Specifier, rest, args) else [Literal(c)] + Expand(Copy, rest, args)
      case Specifier =>
        if c == '%' then [Literal('%')] + Expand(Copy, rest, args)
        else if c == 'v' then Expand(Custom, rest, args)
        else if !IsSpecifier(c) then Expand(Specifier, rest, args)
        else if args == [] then [] else [Value(c, args[0].t, args[0].bytes)] + Expand(Copy, rest, args[1..])
      case Custom =>
        if args == [] then [] else [Value(c, args[0].t, args[0].bytes)] + Expand(Copy, rest, args[1..])
  }

  /** What one character adds to the text, and which arguments are left then. */
  function Emitted(mode: Mode, c: char, args: Args): (seq<Piece>, Args) {
    if mode == Copy then (if c == '%' then [] else [Literal(c)], args)
    else if mode == Specifier && c == '%' then ([Literal('%')], args)
    else if (mode == Specifier && !IsSpecifier(c)) || args == [] then ([], args)
    else ([Value(c, args[0].t, args[0].bytes)], args[1..])
  }

  lemma ConsumePiece(rs: Creator, args: Args, i: nat, c: char)
    requires i < |args| && rs.offset == |Pack(args[..i])|
    ensures Consume(rs, Pack(args), c, args[i].t, Copy).pieces == rs.pieces + [Value(c, args[i].t, args[i].bytes)]
  {
    hide Pack;
    PackAt(args, i);
  }

  /** As PiecesStep, for a character that is no specifier and none of the custom letters. */
  lemma PlainPieces(ks: Checker, rs: Creator, args: Args, c: char)
    requires ks.Checking? && ks.mode == rs.mode && ks.index <= |args| && CheckStep(ks, Types(args), c).Checking?
    requires ks.mode != Custom && (ks.mode == Specifier ==> !IsSpecifier(c) && c != 'L')
    ensures CreateStep(rs, Pack(args), c).pieces == rs.pieces + Emitted(ks.mode, c, args[ks.index..]).0
    ensures CheckStep(ks, Types(args), c).index == ks.index && Emitted(ks.mode, c, args[ks.index..]).1 == args[ks.index..]
  {
    hide *;
    NoPieces(rs.pieces);
    if ks.mode == Copy {
      CopyPieces(ks, rs, Types(args), Pack(args), args[ks.index..], c);
    } else {
      ModifierPieces(ks, rs, Types(args), Pack(args), args[ks.index..], c);
    }
  }

  lemma NoPieces(pieces: seq<Piece>)
    ensures pieces + [] == pieces
  {
  }

  lemma CopyPieces(ks: Checker, rs: Creator, ts: seq<Type>, data: seq<Byte>, rest: Args, c: char)
    requires ks.Checking? && ks.mode == rs.mode == Copy && rs.pieces + [] == rs.pieces
    ensures CreateStep(rs, data, c).pieces == rs.pieces + Emitted(Copy, c, rest).0 && Emitted(Copy, c, rest).1 == rest
    ensures CheckStep(ks, ts, c).Checking? && CheckStep(ks, ts, c).index == ks.index
  {
    hide Consume, CustomType, SpecifierType;
  }

  lemma ModifierPieces(ks: Checker, rs: Creator, ts: seq<Type>, data: seq<Byte>, rest: Args, c: char)
    requires ks.Checking? && ks.mode == rs.mode == Specifier && rs.pieces + [] == rs.pieces
    requires CheckStep(ks, ts, c).Checking? && !IsSpecifier(c) && c != 'L'
    ensures CreateStep(rs, data, c).pieces == rs.pieces + Emitted(Specifier, c, rest).0 && Emitted(Specifier, c, rest).1 == rest
    ensures CheckStep(ks, ts, c).index == ks.index
  {
    hide Consume, CustomType, SpecifierType;
  }

  lemma ValuePieces(ks: Checker, rs: Creator, args: Args, c: char)
    requires ks.Checking? && ks.mode == rs.mode && ks.index < |args| && CheckStep(ks, Types(args), c).Checking?
    requires rs.offset == |Pack(args[..ks.index])| && (ks.mode == Specifier ==> rs.modifier == ks.modifier)
    requires ks.mode == Custom || (ks.mode == Specifier && IsSpecifier(c) && c !in MISREAD)
    ensures CreateStep(rs, Pack(args), c).pieces == rs.pieces + Emitted(ks.mode, c, args[ks.index..]).0
    ensures CheckStep(ks, Types(args), c).index == ks.index + 1 && Emitted(ks.mode, c, args[ks.index..]).1 == args[ks.index + 1..]
  {
    hide Pack, CustomType, SignedType, UnsignedType, Consume;
    ConsumePiece(rs, args, ks.index, c);
    assert args[ks.index..][0] == args[ks.index] && args[ks.index..][1..] == args[ks.index + 1..];
  }

  lemma PiecesStep(cs: Counter, ls: Lister, ks: Checker, rs: Creator, args: Args, c: char)
    requires InStep(cs, ls, ks, rs, args) && CheckStep(ks, Types(args), c).Checking?
    requires cs.mode == Specifier ==> c !in MISREAD && c != 'L'
    ensures var k := CheckStep(ks, Types(args), c);
            var e := Emitted(ks.mode, c, args[ks.index..]);
            && CreateStep(rs, Pack(args), c).pieces == rs.pieces + e.0
            && k.index <= |args| && e.1 == args[k.index..]
  {
    hide Pack, Shown, CheckStep, CreateStep, Emitted, Types;
    NextMode(ks, Types(args), c);
    TypesLength(args);
    if ks.mode == Custom || (ks.mode == Specifier && IsSpecifier(c)) {
      ValuePieces(ks, rs, args, c);
    } else {
      PlainPieces(ks, rs, args, c);
    }
  }

  lemma TypesLength(args: Args)
    ensures |Types(args)| == |args|
  {
  }

  lemma ExpandStep(mode: Mode, fmt: string, args: Args)
    requires fmt != "" && (mode == Custom || (mode == Specifier && IsSpecifier(fmt[0])) ==> args != [])
    ensures var e := Emitted(mode, fmt[0], args);
            var next := if mode == Copy then if fmt[0] == '%' then Specifier else Copy
                        else if mode == Specifier && fmt[0] == 'v' then Custom
                        else if mode == Specifier && fmt[0] != '%' && !IsSpecifier(fmt[0]) then Specifier else Copy;
            Expand(mode, fmt, args) == e.0 + Expand(next, fmt[1..], e.1)
  {
  }

  lemma NextMode(ks: Checker, ts: seq<Type>, c: char)
    requires ks.Checking? && CheckStep(ks, ts, c).Checking?
    ensures CheckStep(ks, ts, c).mode == if ks.mode == Copy then if c == '%' then Specifier else Copy
            else if ks.mode == Specifier && c == 'v' then Custom
            else if ks.mode == Specifier && c != '%' && !IsSpecifier(c) then Specifier else Copy
    ensures ks.mode == Custom || (ks.mode == Specifier && IsSpecifier(c)) ==> ks.index < |ts|
  {
  }

  lemma {:induction false} TextInStep(cs: Counter, ls: Lister, ks: Checker, rs: Creator, args: Args, fmt: string)
    requires InStep(cs, ls, ks, rs, args) && CheckScan(ks, Types(args), fmt + NUL).Checking?
    requires UsedFrom(cs, fmt) !! MISREAD && ks.index <= |args|
    ensures CreateScan(rs, Pack(args), fmt).pieces == rs.pieces + Expand(ks.mode, fmt, args[ks.index..])
    decreases |fmt|
  {
    hide InStep, Pack, Shown, Expand, CheckStep, CreateStep, ListStep, CountStep;
    SameMode(cs, ls, ks, rs, args);
    if fmt == "" {
      ExpandNothing(ks.mode, args[ks.index..]);
    } else {
      var k := CheckStep(ks, Types(args), fmt[0]);
      assert (fmt + NUL)[1..] == fmt[1..] + NUL;
      if k.Failed? {
        FailedStays(Types(args), fmt[1..] + NUL);
      }
      if ks.mode == Specifier && fmt[0] == 'L' {
        BigLNeedsReal(cs, ks, Types(args), fmt);
      }
      StepInStep(cs, ls, ks, rs, args, fmt[0]);
      PiecesStep(cs, ls, ks, rs, args, fmt[0]);
      NextMode(ks, Types(args), fmt[0]);
      ExpandStep(ks.mode, fmt, args[ks.index..]);
      TextInStep(CountStep(cs, fmt[0]), ListStep(ls, fmt[0]), k, CreateStep(rs, Pack(args), fmt[0]), args, fmt[1..]);
    }
  }

  lemma ExpandNothing(mode: Mode, args: Args)
    ensures Expand(mode, "", args) == []
  {
  }

  /** The reader's text is the format string with its arguments put in, on every accepted string without characters and reals. */
  lemma TextIsExpansion(fmt: Format, args: Args)
    requires Accepts(fmt, Types(args)) && Used(fmt) !! MISREAD
    ensures Create(fmt, Pack(args)).pieces == Expand(Copy, fmt, args)
  {
    hide Pack, Shown, CountScan, ListScan, CheckScan, CreateScan, UsedFrom, Expand;
    StartInStep(args);
    TextInStep(Counter(Copy, 0), Lister(Copy, NoModifier, [], 0), Checking(Copy, NoModifier, 0),
               Creator(Copy, NoModifier, 0, [], false), args, fmt);
    assert args[0..] == args && [] + Expand(Copy, fmt, args) == Expand(Copy, fmt, args);
  }

  // The loops.

  method FormatStringCount(fmt: Format) returns (count: nat)
    ensures count == Count(fmt)
  {
    var text, s := fmt + NUL, Counter(Copy, 0);
    for i := 0 to |text|
      invariant CountScan(s, text[i..]) == CountScan(Counter(Copy, 0), text)
    {
      assert text[i..][1..] == text[i + 1..];
      s := CountStep(s, text[i]);
    }
    count := s.count;
  }

  method FormatStringTypeList(fmt: Format) returns (types: seq<Type>, length: nat)
    ensures types == TypeList(fmt).types && length == TypeList(fmt).length
  {
    var text, s := fmt + NUL, Lister(Copy, NoModifier, [], 0);
    for i := 0 to |text|
      invariant ListScan(s, text[i..]) == ListScan(Lister(Copy, NoModifier, [], 0), text)
    {
      assert text[i..][1..] == text[i + 1..];
      s := ListStep(s, text[i]);
    }
    types, length := s.types, s.length;
    if s.mode != Copy {
      types := types + [Bad];
    }
  }

  method CheckFormatString(fmt: Format, ts: seq<Type>) returns (success: bool)
    ensures success == Accepts(fmt, ts)
  {
    var text, s := fmt + NUL, Checking(Copy, NoModifier, 0);
    for i := 0 to |text|
      invariant s.Checking? && CheckScan(s, ts, text[i..]) == CheckScan(Checking(Copy, NoModifier, 0), ts, text)
    {
      assert text[i..][1..] == text[i + 1..];
      s := CheckStep(s, ts, text[i]);
      if s.Failed? {
        FailedStays(ts, text[i + 1..]);
        return false;
      }
    }
    success := true;
  }

  method CreateLogsString(fmt: Format, data: seq<Byte>) returns (pieces: seq<Piece>, overrun: bool, offset: nat)
    ensures Create(fmt, data).pieces == pieces && Create(fmt, data).overrun == overrun && Create(fmt, data).offset == offset
  {
    var s := Creator(Copy, NoModifier, 0, [], false);
    for i := 0 to |fmt|
      invariant CreateScan(s, data, fmt[i..]) == CreateScan(Creator(Copy, NoModifier, 0, [], false), data, fmt)
    {
      assert fmt[i..][1..] == fmt[i + 1..];
      s := CreateStep(s, data, fmt[i]);
    }
    pieces, overrun, offset := s.pieces, s.overrun, s.offset;
  }

  /** copyvaradic: the first argument, then the others behind it. */
  method CopyVaradic(arr: array<Byte>, at: nat, args: Args)
    requires at + |Pack(args)| <= arr.Length
    modifies arr
    ensures arr[..at + |Pack(args)|] == old(arr[..at]) + Pack(args)
    ensures forall k :: at + |Pack(args)| <= k < arr.Length ==> arr[k] == old(arr[k])
    decreases |args|
  {
    if args != [] {
      var bytes := args[0].bytes;
      for k := 0 to |bytes|
        invariant arr[..at + k] == old(arr[..at]) + bytes[..k]
        invariant forall j :: at + k <= j < arr.Length ==> arr[j] == old(arr[j])
      {
        arr[at + k] := bytes[k];
      }
      assert bytes[..|bytes|] == bytes;
      Regroup(old(arr[..at]), bytes, Pack(args[1..]));
      CopyVaradic(arr, at + |bytes|, args[1..]);
    }
  }
}
