/**
  What the reader of the log makes of a format string that the writer's check has accepted. Which types
  createLogsString of core/src/log.cpp takes from the packed arguments depends on the format string alone; the
  arguments come back exactly when these are their types.
 */
module FormatReader {
  import opened FormatString

  /** The state of createLogsString without the data: what it has taken so far is a list of types. */
  datatype Reader = Reader(mode: Mode, modifier: Modifier, types: seq<Type>)

  const START := Reader(Copy, NoModifier, [])

  function Taken(s: Reader, t: Type, mode: Mode): Reader {
    Reader(mode, s.modifier, s.types + [t])
  }

  function ReadStep(s: Reader, c: char): Reader {
    match s.mode
    case Copy => if c == '%' then s.(mode := Specifier, modifier := NoModifier) else s
    case Specifier =>
      if c in SIGNED || c in UNSIGNED then
        if SpecifierType(c, s.modifier) == Bad then s.(mode := Copy) else Taken(s, SpecifierType(c, s.modifier), Copy)
      else if c == 'f' then Taken(s, if s.modifier == L then Double else Float, Copy)
      else if c == 'c' then Taken(s, Int8, Specifier)
      else if c == 'v' then s.(mode := Custom)
      else if c == 'h' then s.(modifier := if s.modifier == H then HH else H)
      else if c == 'l' then s.(modifier := if s.modifier == L then LL else L)
      else s.(mode := Copy)
    case Custom => if CustomType(c) == Bad then s.(mode := Copy) else Taken(s, CustomType(c), Copy)
  }

  function ReadScan(s: Reader, fmt: string): Reader
    decreases |fmt|
  {
    if fmt == "" then s else ReadScan(ReadStep(s, fmt[0]), fmt[1..])
  }

  function ReaderTypes(fmt: Format): seq<Type> {
    ReadScan(START, fmt).types
  }

  // The scan of types follows the reader whatever the data are.

  ghost predicate Follows(rs: Creator, s: Reader) {
    && rs.mode == s.mode && rs.modifier == s.modifier && (!rs.overrun ==> Types(Shown(rs.pieces)) == s.types)
  }

  lemma ShownMore(pieces: seq<Piece>, p: Piece)
    ensures Types(Shown(pieces + [p])) == Types(Shown(pieces)) + if p.Value? then [p.t] else []
  {
    hide Shown;
    ShownLiteral(pieces, p);
    TypesOfSum(Shown(pieces), if p.Value? then [Arg(p.t, p.bytes)] else []);
  }

  lemma TypesOfSum(a: seq<Arg>, b: seq<Arg>)
    ensures Types(a + b) == Types(a) + Types(b)
  {
  }

  lemma FollowsConsume(rs: Creator, s: Reader, data: seq<Byte>, c: char, t: Type, mode: Mode)
    requires Follows(rs, s)
    ensures Follows(Consume(rs, data, c, t, mode), Taken(s, t, mode))
  {
    hide Shown, Types;
    var end := rs.offset + Size(t);
    if end <= |data| {
      ShownMore(rs.pieces, Value(c, t, data[rs.offset..end]));
    }
  }

  lemma FollowsStep(rs: Creator, s: Reader, data: seq<Byte>, c: char)
    requires Follows(rs, s)
    ensures Follows(CreateStep(rs, data, c), ReadStep(s, c))
  {
    hide Shown, Types, Consume, Taken, CustomType, SignedType, UnsignedType;
    ShownMore(rs.pieces, Literal(c));
    ShownMore(rs.pieces, UnknownMessage);
    forall t: Type, mode: Mode ensures Follows(Consume(rs, data, c, t, mode), Taken(s, t, mode)) {
      FollowsConsume(rs, s, data, c, t, mode);
    }
  }

  lemma {:induction false} FollowsScan(rs: Creator, s: Reader, data: seq<Byte>, fmt: string)
    requires Follows(rs, s)
    ensures Follows(CreateScan(rs, data, fmt), ReadScan(s, fmt))
    decreases |fmt|
  {
    hide Follows, CreateStep, ReadStep;
    if fmt != "" {
      FollowsStep(rs, s, data, fmt[0]);
      FollowsScan(CreateStep(rs, data, fmt[0]), ReadStep(s, fmt[0]), data, fmt[1..]);
    }
  }

  // If the types are those of the arguments, the reader finds each argument where it was packed.

  ghost predicate Reads(rs: Creator, s: Reader, args: Args) {
    rs.mode == s.mode && rs.modifier == s.modifier && |s.types| <= |args| && HasRead(rs, args, |s.types|)
  }

  /** The first n arguments are shown, and exactly their bytes are consumed. */
  ghost predicate HasRead(rs: Creator, args: Args, n: nat)
    requires n <= |args|
  {
    !rs.overrun && rs.offset == |Pack(args[..n])| && Shown(rs.pieces) == args[..n]
  }

  lemma ReadsNext(rs: Creator, args: Args, n: nat, c: char, mode: Mode)
    requires n < |args| && HasRead(rs, args, n)
    ensures HasRead(Consume(rs, Pack(args), c, args[n].t, mode), args, n + 1)
  {
    hide Pack, Shown, Consume;
    TakeOne(rs, args, n, c, mode);
  }

  lemma ReadsConsume(rs: Creator, s: Reader, args: Args, c: char, t: Type, mode: Mode)
    requires Reads(rs, s, args) && |s.types| < |args| && args[|s.types|].t == t
    ensures Reads(Consume(rs, Pack(args), c, t, mode), Taken(s, t, mode), args)
  {
    hide Consume, HasRead;
    ReadsNext(rs, args, |s.types|, c, mode);
    ConsumeMode(rs, Pack(args), c, t, mode);
  }

  lemma ReadsStep(rs: Creator, s: Reader, args: Args, c: char)
    requires Reads(rs, s, args) && ReadStep(s, c).types <= Types(args)
    ensures Reads(CreateStep(rs, Pack(args), c), ReadStep(s, c), args)
  {
    hide Pack, Shown, Consume, CustomType, SignedType, UnsignedType;
    ShownLiteral(rs.pieces, Literal(c));
    ShownLiteral(rs.pieces, UnknownMessage);
    var n := |s.types|;
    if |ReadStep(s, c).types| == n + 1 {
      var t := ReadStep(s, c).types[n];
      assert Types(args)[n] == t;
      forall mode: Mode ensures Reads(Consume(rs, Pack(args), c, t, mode), Taken(s, t, mode), args) {
        ReadsConsume(rs, s, args, c, t, mode);
      }
    }
  }

  /** What has been taken stays taken. */
  lemma {:induction false} TypesGrow(s: Reader, fmt: string)
    ensures s.types <= ReadScan(s, fmt).types
    decreases |fmt|
  {
    if fmt != "" {
      TypesGrow(ReadStep(s, fmt[0]), fmt[1..]);
      StepGrows(s, fmt[0]);
    }
  }

  lemma StepGrows(s: Reader, c: char)
    ensures s.types <= ReadStep(s, c).types
  {
    hide CustomType, SpecifierType;
  }

  lemma {:induction false} ReadsScan(rs: Creator, s: Reader, args: Args, fmt: string)
    requires Reads(rs, s, args) && ReadScan(s, fmt).types == Types(args)
    ensures Reads(CreateScan(rs, Pack(args), fmt), ReadScan(s, fmt), args)
    decreases |fmt|
  {
    hide Reads, CreateStep, ReadStep;
    if fmt != "" {
      TypesGrow(ReadStep(s, fmt[0]), fmt[1..]);
      ReadsStep(rs, s, args, fmt[0]);
      ReadsScan(CreateStep(rs, Pack(args), fmt[0]), ReadStep(s, fmt[0]), args, fmt[1..]);
    }
  }

  lemma PackNothing()
    ensures Pack([]) == []
  {
  }

  /**
    For every format string and all arguments, accepted or not: the reader shows exactly these arguments out
    of exactly their bytes if and only if the types it takes, which the string alone decides, are theirs.
   */
  lemma ReadsBackIff(fmt: Format, args: Args)
    ensures ReadsBack(fmt, args) <==> ReaderTypes(fmt) == Types(args)
  {
    hide Pack, CreateScan, ReadScan;
    var start := Creator(Copy, NoModifier, 0, [], false);
    assert Shown([]) == [];
    FollowsScan(start, START, Pack(args), fmt);
    if ReaderTypes(fmt) == Types(args) {
      PackNothing();
      assert args[..0] == [];
      ReadsScan(start, START, args, fmt);
      assert args[..|args|] == args;
    }
  }

  // The condition in the terms of the source: its own list of types against the reader's.

  /** The check, the counter and the list go along; only the modifier L of the check, which the list does not know, parts them. */
  ghost predicate Along(cs: Counter, ls: Lister, ks: Checker, ts: seq<Type>) {
    && ks.Checking? && cs.mode == ks.mode && cs.count == ks.index <= |ts|
    && if Bad in ls.types then (ks.mode == Specifier && ks.modifier == BigL) || LongDouble in ts[..ks.index]
       else ls.mode == ks.mode && (ks.mode == Specifier ==> ls.modifier == ks.modifier) && ls.types == ts[..ks.index]
  }

  lemma AlongStep(cs: Counter, ls: Lister, ks: Checker, ts: seq<Type>, c: char)
    requires Along(cs, ls, ks, ts) && CheckStep(ks, ts, c).Checking?
    ensures Along(CountStep(cs, c), ListStep(ls, c), CheckStep(ks, ts, c), ts)
  {
    hide CustomType, SignedType, UnsignedType, CharType, RealType, CountStep, ListStep, CheckStep;
    if ks.index < |ts| {
      assert ts[..ks.index + 1] == ts[..ks.index] + [ts[ks.index]];
    }
    if ks.mode == Specifier {
      AlongSpecifier(cs, ls, ks, ts, c);
    } else {
      AlongOther(cs, ls, ks, ts, c);
    }
  }

  lemma AlongSpecifier(cs: Counter, ls: Lister, ks: Checker, ts: seq<Type>, c: char)
    requires Along(cs, ls, ks, ts) && CheckStep(ks, ts, c).Checking? && ks.mode == Specifier
    requires ks.index < |ts| ==> ts[..ks.index + 1] == ts[..ks.index] + [ts[ks.index]]
    ensures Along(CountStep(cs, c), ListStep(ls, c), CheckStep(ks, ts, c), ts)
  {
    hide CustomType, SignedType, UnsignedType, CharType, RealType;
    NoneAtBigL();
  }

  lemma AlongOther(cs: Counter, ls: Lister, ks: Checker, ts: seq<Type>, c: char)
    requires Along(cs, ls, ks, ts) && CheckStep(ks, ts, c).Checking? && ks.mode != Specifier
    requires ks.index < |ts| ==> ts[..ks.index + 1] == ts[..ks.index] + [ts[ks.index]]
    ensures Along(CountStep(cs, c), ListStep(ls, c), CheckStep(ks, ts, c), ts)
  {
    hide CustomType, SpecifierType;
    CustomKnown(c);
  }

  /** Only a real may follow L. */
  lemma NoneAtBigL()
    ensures SignedType(BigL) == UnsignedType(BigL) == CharType(BigL) == Bad && RealType(BigL) == LongDouble
  {
  }

  lemma {:induction false} AlongScan(cs: Counter, ls: Lister, ks: Checker, ts: seq<Type>, fmt: string)
    requires Along(cs, ls, ks, ts) && CheckScan(ks, ts, fmt).Checking?
    ensures Along(CountScan(cs, fmt), ListScan(ls, fmt), CheckScan(ks, ts, fmt), ts)
    decreases |fmt|
  {
    hide Along, CheckStep, CountStep, ListStep;
    if fmt != "" {
      if CheckStep(ks, ts, fmt[0]).Failed? {
        FailedStays(ts, fmt[1..]);
      }
      AlongStep(cs, ls, ks, ts, fmt[0]);
      AlongScan(CountStep(cs, fmt[0]), ListStep(ls, fmt[0]), CheckStep(ks, ts, fmt[0]), ts, fmt[1..]);
    }
  }

  /** The reader never takes these. */
  predicate Takeable(ts: seq<Type>) {
    Bad !in ts && LongDouble !in ts
  }

  lemma TakeableStep(s: Reader, c: char)
    requires Takeable(s.types)
    ensures Takeable(ReadStep(s, c).types)
  {
  }

  lemma {:induction false} TakeableScan(s: Reader, fmt: string)
    requires Takeable(s.types)
    ensures Takeable(ReadScan(s, fmt).types)
    decreases |fmt|
  {
    hide ReadStep;
    if fmt != "" {
      TakeableStep(s, fmt[0]);
      TakeableScan(ReadStep(s, fmt[0]), fmt[1..]);
    }
  }

  /** An accepted string ends between specifiers: its closing NUL would be refused inside one. */
  lemma {:induction false} EndsInCopy(ks: Checker, ts: seq<Type>, fmt: string)
    requires CheckScan(ks, ts, fmt + NUL).Checking?
    ensures CheckScan(ks, ts, fmt + NUL).mode == Copy
    decreases |fmt|
  {
    hide CheckStep;
    if fmt == "" {
      assert fmt + NUL == NUL && NUL[1..] == "";
      NulEnds(ks, ts);
    } else {
      assert (fmt + NUL)[1..] == fmt[1..] + NUL;
      EndsInCopy(CheckStep(ks, ts, fmt[0]), ts, fmt[1..]);
    }
  }

  lemma NulEnds(ks: Checker, ts: seq<Type>)
    requires CheckStep(ks, ts, '\0').Checking?
    ensures CheckStep(ks, ts, '\0').mode == Copy
  {
  }

  /**
    Exactly which accepted log strings can be read back, as a condition on the string alone: those whose type
    list, as formatstring_type_list makes it for the writer, is the list of types that the reader takes.
   */
  lemma AcceptedReadsBackIff(fmt: Format, args: Args)
    requires Accepts(fmt, Types(args)) && Count(fmt) == |args|
    ensures ReadsBack(fmt, args) <==> ReaderTypes(fmt) == TypeList(fmt).types
  {
    hide CountScan, ListScan, CheckScan, ReadScan, ReadsBack;
    ReadsBackIff(fmt, args);
    var ts := Types(args);
    var cs, ls, ks := Counter(Copy, 0), Lister(Copy, NoModifier, [], 0), Checking(Copy, NoModifier, 0);
    AlongScan(cs, ls, ks, ts, fmt + NUL);
    EndsInCopy(ks, ts, fmt);
    TakeableScan(START, fmt);
    assert ts[..|ts|] == ts;
  }

  // Directive by directive.

  lemma ScanMore(cs: Counter, ks: Checker, s: Reader, ts: seq<Type>, c: char, rest: string)
    ensures CountScan(cs, [c] + rest) == CountScan(CountStep(cs, c), rest)
    ensures CheckScan(ks, ts, [c] + rest) == CheckScan(CheckStep(ks, ts, c), ts, rest)
    ensures ReadScan(s, [c] + rest) == ReadScan(ReadStep(s, c), rest)
    ensures UsedFrom(cs, [c] + rest) ==
            (if cs.mode == Specifier && IsSpecifier(c) then {c} else {}) + UsedFrom(CountStep(cs, c), rest)
  {
    assert ([c] + rest)[1..] == rest;
  }

  lemma ScanNothing(cs: Counter, ks: Checker, s: Reader, ts: seq<Type>)
    ensures CountScan(cs, "") == cs && CheckScan(ks, ts, "") == ks && ReadScan(s, "") == s && UsedFrom(cs, "") == {}
  {
  }

  const MODIFIERS: set<string> := {"", "h", "hh", "l", "ll", "L"}

  function Meaning(mods: string): Modifier
    requires mods in MODIFIERS
  {
    if mods == "" then NoModifier else if mods == "h" then H else if mods == "hh" then HH
    else if mods == "l" then L else if mods == "ll" then LL else BigL
  }

  /** What the check and the reader know in front of a specifier. */
  lemma AfterModifiers(mods: string, cs: Counter, ks: Checker, s: Reader, ts: seq<Type>, rest: string)
    requires mods in MODIFIERS && ts != []
    requires cs == Counter(Specifier, 0) && ks == Checking(Specifier, NoModifier, 0) && s == Reader(Specifier, NoModifier, [])
    ensures CountScan(cs, mods + rest) == CountScan(cs, rest)
    ensures CheckScan(ks, ts, mods + rest) == CheckScan(Checking(Specifier, Meaning(mods), 0), ts, rest)
    ensures ReadScan(s, mods + rest) ==
            ReadScan(if mods == "L" then Reader(Copy, NoModifier, []) else Reader(Specifier, Meaning(mods), []), rest)
  {
    hide CountScan, CheckScan, ReadScan, CountStep, CheckStep, ReadStep;
    if mods == "" {
      assert mods + rest == rest;
    } else {
      ModifierSteps(mods, ts);
      var k, r := CheckStep(ks, ts, mods[0]), ReadStep(s, mods[0]);
      ScanMore(cs, ks, s, ts, mods[0], mods[1..] + rest);
      assert mods + rest == [mods[0]] + (mods[1..] + rest);
      if |mods| == 1 {
        assert mods[1..] + rest == rest;
      } else {
        ScanMore(cs, k, r, ts, mods[1], rest);
        assert mods[1..] + rest == [mods[1]] + rest;
      }
    }
  }

  lemma ModifierSteps(mods: string, ts: seq<Type>)
    requires mods in MODIFIERS && mods != "" && ts != []
    ensures CountStep(Counter(Specifier, 0), mods[0]) == Counter(Specifier, 0)
    ensures var k := CheckStep(Checking(Specifier, NoModifier, 0), ts, mods[0]);
            k == Checking(Specifier, Meaning([mods[0]]), 0) && (|mods| == 2 ==>
            mods[1] == mods[0] && CheckStep(k, ts, mods[1]) == Checking(Specifier, Meaning(mods), 0))
    ensures var s := ReadStep(Reader(Specifier, NoModifier, []), mods[0]);
            s == (if mods == "L" then Reader(Copy, NoModifier, []) else Reader(Specifier, Meaning([mods[0]]), [])) &&
            (|mods| == 2 ==> ReadStep(s, mods[1]) == Reader(Specifier, Meaning(mods), []))
  {
  }

  /** A string of one directive, for one argument. */
  function Directive(mods: string, c: char): Format
    requires mods in MODIFIERS && IsSpecifier(c)
  {
    ['%'] + mods + [c]
  }

  /** The steps at the % and at the specifier. */
  lemma EndSteps(mods: string, c: char, t: Type)
    requires mods in MODIFIERS && IsSpecifier(c)
    ensures CountStep(Counter(Copy, 0), '%') == Counter(Specifier, 0)
    ensures CheckStep(Checking(Copy, NoModifier, 0), [t], '%') == Checking(Specifier, NoModifier, 0)
    ensures ReadStep(START, '%') == Reader(Specifier, NoModifier, [])
    ensures CountStep(Counter(Specifier, 0), c) == Counter(Copy, 1) == CountStep(Counter(Copy, 1), '\0')
    ensures CheckStep(Checking(Specifier, Meaning(mods), 0), [t], c) ==
            if t != Bad && t == SpecifierType(c, Meaning(mods)) then Checking(Copy, NoModifier, 1) else Failed
    ensures CheckStep(Checking(Copy, NoModifier, 1), [t], '\0') == Checking(Copy, NoModifier, 1)
    ensures CheckStep(Failed, [t], '\0') == Failed
    ensures ReadStep(START, c) == START
  {
    hide SpecifierType;
  }

  lemma ScanDirective(mods: string, c: char, t: Type)
    requires mods in MODIFIERS && IsSpecifier(c)
    ensures Accepts(Directive(mods, c), [t]) <==> t != Bad && t == SpecifierType(c, Meaning(mods))
    ensures Count(Directive(mods, c)) == 1
    ensures ReaderTypes(Directive(mods, c)) ==
            if mods == "L" then [] else ReadStep(Reader(Specifier, Meaning(mods), []), c).types
  {
    hide CountScan, CheckScan, ReadScan, CountStep, CheckStep, ReadStep, SpecifierType, Meaning;
    var cs, ks, s, spec := Counter(Copy, 0), Checking(Copy, NoModifier, 0), START, Counter(Specifier, 0);
    var k1, s1 := Checking(Specifier, NoModifier, 0), Reader(Specifier, NoModifier, []);
    var k2, s2 := Checking(Specifier, Meaning(mods), 0), if mods == "L" then START else Reader(Specifier, Meaning(mods), []);
    var k3, s3 := CheckStep(k2, [t], c), ReadStep(s2, c);
    EndSteps(mods, c, t);
    assert Directive(mods, c) == ['%'] + (mods + [c]) && Directive(mods, c) + NUL == ['%'] + (mods + ([c] + NUL));
    ScanMore(cs, ks, s, [t], '%', mods + [c]);
    ScanMore(cs, ks, s, [t], '%', mods + ([c] + NUL));
    AfterModifiers(mods, spec, k1, s1, [t], [c]);
    AfterModifiers(mods, spec, k1, s1, [t], [c] + NUL);
    assert [c] + "" == [c] && ['\0'] + "" == NUL;
    ScanMore(spec, k2, s2, [t], c, NUL);
    ScanMore(spec, k2, s2, [t], c, "");
    ScanMore(Counter(Copy, 1), k3, s3, [t], '\0', "");
    ScanNothing(Counter(Copy, 1), CheckStep(k3, [t], '\0'), s3, [t]);
  }

  /** A specifier that asks for t, on the side of the reader. */
  lemma SpecifierTaken(m: Modifier, c: char, t: Type)
    requires IsSpecifier(c) && SpecifierType(c, m) == t != Bad
    ensures ReadStep(Reader(Specifier, m, []), c).types == [t] <==>
            if c in REALS then c == 'f' && m == H else c == 'c' ==> m == NoModifier
  {
    var s := Reader(Specifier, m, []);
    forall u: Type, mode: Mode ensures Taken(s, u, mode).types == [u] && ([u] == [t] <==> u == t) {
      assert [u][0] == u && [t][0] == t;
    }
  }

  /**
    Of the directives that the check accepts, the reader misreads every real but the float of %hf and every
    character with a modifier; all the others come back, a character too if nothing stands behind it.
   */
  lemma DirectiveIff(mods: string, c: char, a: Arg)
    requires mods in MODIFIERS && IsSpecifier(c) && IsArg(a) && Accepts(Directive(mods, c), [a.t])
    ensures ReadsBack(Directive(mods, c), [a]) <==>
            if c in REALS then c == 'f' && mods == "h" else c == 'c' ==> mods == ""
  {
    hide ReadsBack, ReaderTypes, Accepts, Directive, ReadStep;
    ScanDirective(mods, c, a.t);
    ReadsBackIff(Directive(mods, c), [a]);
    assert Types([a]) == [a.t];
    SpecifierTaken(Meaning(mods), c, a.t);
  }

  // Which arguments a directive asks for, in bytes and signs.

  predicate IsSigned(t: Type) {
    t in {Int8, Int16, Int32, Int64}
  }

  predicate IsUnsigned(t: Type) {
    t in {UInt8, UInt16, UInt32, UInt64}
  }

  /** The length modifiers of the standard library of C. */
  function Bytes(mods: string): nat {
    if mods == "hh" then 1 else if mods == "h" then 2 else if mods == "" then 4 else if mods == "l" || mods == "ll" then 8 else 0
  }

  /** Integers are accepted exactly with the size of their modifier, signed for d and i, unsigned for u, o, x and X. */
  lemma IntegerIff(mods: string, c: char, t: Type)
    requires mods in MODIFIERS && c in {'d', 'i', 'u', 'o', 'x', 'X'}
    ensures Accepts(Directive(mods, c), [t]) <==>
            (if c in {'d', 'i'} then IsSigned(t) else IsUnsigned(t)) && Size(t) == Bytes(mods)
  {
    hide Accepts, Directive, SpecifierType, Meaning;
    ScanDirective(mods, c, t);
    if c in {'d', 'i'} {
      SignedIff(mods, c, t);
    } else {
      UnsignedIff(mods, c, t);
    }
  }

  lemma SignedIff(mods: string, c: char, t: Type)
    requires mods in MODIFIERS && c in {'d', 'i'}
    ensures t == SpecifierType(c, Meaning(mods)) != Bad <==> IsSigned(t) && Size(t) == Bytes(mods)
  {
  }

  lemma UnsignedIff(mods: string, c: char, t: Type)
    requires mods in MODIFIERS && c in {'u', 'o', 'x', 'X'}
    ensures t == SpecifierType(c, Meaning(mods)) != Bad <==> IsUnsigned(t) && Size(t) == Bytes(mods)
  {
  }

  /** Reals and characters. */
  lemma RealAndCharIff(mods: string, c: char, t: Type)
    requires mods in MODIFIERS && c in {'f', 'F', 'c'}
    ensures Accepts(Directive(mods, c), [t]) <==>
            if c == 'c' then (mods == "" && t == Int8) || (mods == "l" && t == UInt16)
            else (mods == "" && t == Double && Size(t) == 8) || (mods == "h" && t == Float && Size(t) == 4) ||
                 (mods == "L" && t == LongDouble && Size(t) == 16)
  {
    hide Accepts, Directive;
    ScanDirective(mods, c, t);
  }

  /** A string of one custom directive, %v and a letter. */
  function Own(c: char): Format
    requires c != '\0'
  {
    ['%', 'v', c]
  }

  /** The letters behind %v, the arguments they ask for, and how many bytes those have. */
  const OWN: set<(char, Type, nat)> := {
    ('n', SocketAddress, 18), ('N', SocketAddress, 18), ('i', Address, 16), ('I', Address, 16), ('p', Port, 2),
    ('e', Int32, 4), ('c', Int32, 4), ('E', ErrorCode, 2), ('g', Guid, 16), ('G', Guid, 16), ('v', UInt32, 4),
    ('m', ModuleId, 4), ('l', Level, 1)
  }

  /** The custom directives are accepted for the arguments of this list, and the reader takes the same. */
  lemma OwnIff(c: char, t: Type)
    requires c != '\0'
    ensures Accepts(Own(c), [t]) <==> (c, t, Size(t)) in OWN
    ensures Accepts(Own(c), [t]) ==> Count(Own(c)) == 1 && ReaderTypes(Own(c)) == [t]
  {
    hide CountScan, CheckScan, ReadScan, CustomType;
    var spec, own := Checking(Specifier, NoModifier, 0), Checking(Custom, NoModifier, 0);
    var s1, s2 := Reader(Specifier, NoModifier, []), Reader(Custom, NoModifier, []);
    OwnSteps(c, t);
    assert Own(c) == ['%'] + (['v'] + ([c] + "")) && Own(c) + NUL == ['%'] + (['v'] + ([c] + NUL)) && NUL == ['\0'] + "";
    ScanMore(Counter(Copy, 0), Checking(Copy, NoModifier, 0), START, [t], '%', ['v'] + ([c] + ""));
    ScanMore(Counter(Copy, 0), Checking(Copy, NoModifier, 0), START, [t], '%', ['v'] + ([c] + NUL));
    ScanMore(Counter(Specifier, 0), spec, s1, [t], 'v', [c] + "");
    ScanMore(Counter(Specifier, 0), spec, s1, [t], 'v', [c] + NUL);
    ScanMore(Counter(Custom, 0), own, s2, [t], c, "");
    ScanMore(Counter(Custom, 0), own, s2, [t], c, NUL);
    var cs, ks := CountStep(Counter(Custom, 0), c), CheckStep(own, [t], c);
    ScanMore(cs, ks, s2, [t], '\0', "");
    ScanNothing(CountStep(cs, '\0'), CheckStep(ks, [t], '\0'), ReadStep(s2, c), [t]);
    OwnTypes(c, t);
    CustomKnown(c);
  }

  lemma OwnSteps(c: char, t: Type)
    ensures CountStep(Counter(Copy, 0), '%') == Counter(Specifier, 0) && CountStep(Counter(Specifier, 0), 'v') == Counter(Custom, 0)
    ensures CheckStep(Checking(Copy, NoModifier, 0), [t], '%') == Checking(Specifier, NoModifier, 0)
    ensures CheckStep(Checking(Specifier, NoModifier, 0), [t], 'v') == Checking(Custom, NoModifier, 0)
    ensures ReadStep(START, '%') == Reader(Specifier, NoModifier, [])
    ensures ReadStep(Reader(Specifier, NoModifier, []), 'v') == Reader(Custom, NoModifier, [])
  {
  }

  lemma OwnTypes(c: char, t: Type)
    ensures t == CustomType(c) != Bad <==> (c, t, Size(t)) in OWN
  {
  }

  // Letter by letter.

  /** A double is packed with eight bytes; %f reads four of them and %F none. */
  lemma RealsAreMisread(c: char) returns (args: Args)
    requires c in REALS
    ensures Accepts(['%', c], Types(args)) && Count(['%', c]) == |args| && Used(['%', c]) == {c}
    ensures !ReadsBack(['%', c], args)
  {
    hide ReadsBack, Accepts, Count, Used, UsedFrom;
    var a := Arg(Double, [0, 0, 0, 0, 0, 0, 0, 0]);
    args := [a];
    assert Types(args) == [Double] && Directive("", c) == ['%', c];
    ScanDirective("", c, Double);
    DirectiveIff("", c, a);
    OneIsUsed(c);
  }

  lemma OneIsUsed(c: char)
    requires IsSpecifier(c)
    ensures Used(['%', c]) == {c}
  {
    hide UsedFrom;
    var cs, ks, spec := Counter(Copy, 0), Checking(Copy, NoModifier, 0), Counter(Specifier, 0);
    assert ['%', c] == ['%'] + [c] && [c] == [c] + "";
    ScanMore(cs, ks, START, [], '%', [c]);
    ScanMore(spec, ks, START, [], c, "");
    ScanNothing(CountStep(spec, c), ks, START, []);
  }

  lemma TwoChars()
    ensures Accepts("%c%c", [Int8, Int8]) && Count("%c%c") == 2 && Used("%c%c") == {'c'}
    ensures ReaderTypes("%c%c") == [Int8]
  {
    hide CountScan, CheckScan, ReadScan, UsedFrom, CountStep, CheckStep, ReadStep;
    var ts := [Int8, Int8];
    var s1, s2, s3 := Reader(Specifier, NoModifier, []), Reader(Specifier, NoModifier, [Int8]), Reader(Copy, NoModifier, [Int8]);
    CharSteps(0);
    CharSteps(1);
    ReaderCharSteps();
    assert "%c%c" == ['%'] + "c%c" && "c%c" == ['c'] + "%c" && "%c" == ['%'] + "c" && "c" == ['c'] + "";
    assert "%c%c" + NUL == ['%'] + "c%c\0" && "c%c\0" == ['c'] + "%c\0" && "%c\0" == ['%'] + "c\0" && "c\0" == ['c'] + NUL;
    assert NUL == ['\0'] + "";
    ScanMore(Counter(Copy, 0), Checking(Copy, NoModifier, 0), START, ts, '%', "c%c");
    ScanMore(Counter(Specifier, 0), Checking(Specifier, NoModifier, 0), s1, ts, 'c', "%c");
    ScanMore(Counter(Copy, 1), Checking(Copy, NoModifier, 1), s2, ts, '%', "c");
    ScanMore(Counter(Specifier, 1), Checking(Specifier, NoModifier, 1), s3, ts, 'c', "");
    ScanMore(Counter(Copy, 0), Checking(Copy, NoModifier, 0), START, ts, '%', "c%c\0");
    ScanMore(Counter(Specifier, 0), Checking(Specifier, NoModifier, 0), s1, ts, 'c', "%c\0");
    ScanMore(Counter(Copy, 1), Checking(Copy, NoModifier, 1), s2, ts, '%', "c\0");
    ScanMore(Counter(Specifier, 1), Checking(Specifier, NoModifier, 1), s3, ts, 'c', NUL);
    ScanMore(Counter(Copy, 2), Checking(Copy, NoModifier, 2), s3, ts, '\0', "");
    ScanNothing(Counter(Copy, 2), Checking(Copy, NoModifier, 2), s3, ts);
  }

  /** The steps of the counter and of the check over one %c of two. */
  lemma CharSteps(i: nat)
    requires i < 2
    ensures CountStep(Counter(Copy, i), '%') == Counter(Specifier, i)
    ensures CountStep(Counter(Specifier, i), 'c') == Counter(Copy, i + 1) == CountStep(Counter(Copy, i + 1), '\0')
    ensures CheckStep(Checking(Copy, NoModifier, i), [Int8, Int8], '%') == Checking(Specifier, NoModifier, i)
    ensures CheckStep(Checking(Specifier, NoModifier, i), [Int8, Int8], 'c') == Checking(Copy, NoModifier, i + 1)
    ensures CheckStep(Checking(Copy, NoModifier, i + 1), [Int8, Int8], '\0') == Checking(Copy, NoModifier, i + 1)
  {
  }

  lemma ReaderCharSteps()
    ensures ReadStep(START, '%') == Reader(Specifier, NoModifier, [])
    ensures ReadStep(Reader(Specifier, NoModifier, []), 'c') == Reader(Specifier, NoModifier, [Int8])
    ensures ReadStep(Reader(Specifier, NoModifier, [Int8]), '%') == Reader(Copy, NoModifier, [Int8])
    ensures ReadStep(Reader(Copy, NoModifier, [Int8]), 'c') == Reader(Copy, NoModifier, [Int8])
  {
  }

  /** Behind a character the reader goes on as in a specifier, so that the next % is taken for %%. */
  lemma CharsAreMisread() returns (args: Args)
    ensures Accepts("%c%c", Types(args)) && Count("%c%c") == |args| && Used("%c%c") == {'c'}
    ensures !ReadsBack("%c%c", args)
  {
    hide ReadsBack, Accepts, Count, Used, ReaderTypes;
    args := [Arg(Int8, [7]), Arg(Int8, [7])];
    TwoChars();
    assert Types(args) == [Int8, Int8];
    ReadsBackIff("%c%c", args);
  }

  /** What is accepted with specifiers of this set is read back. */
  ghost predicate Trusted(specifiers: set<char>) {
    forall fmt: Format, args: Args ::
      Accepts(fmt, Types(args)) && Count(fmt) == |args| && Used(fmt) <= specifiers ==> ReadsBack(fmt, args)
  }

  /** The sets of letters that are safe in every log string: exactly those with neither characters nor reals in them. */
  lemma TrustedIff(specifiers: set<char>)
    ensures Trusted(specifiers) <==> specifiers !! MISREAD
  {
    hide ReadsBack, Accepts, Count, Used;
    if specifiers !! MISREAD {
      forall fmt: Format, args: Args | Accepts(fmt, Types(args)) && Count(fmt) == |args| && Used(fmt) <= specifiers
        ensures ReadsBack(fmt, args)
      {
        AcceptedReadsBack(fmt, args);
      }
    } else {
      var c :| c in specifiers && c in MISREAD;
      if c == 'c' {
        var args := CharsAreMisread();
        assert !ReadsBack("%c%c", args);
      } else {
        var args := RealsAreMisread(c);
        assert !ReadsBack(['%', c], args);
      }
    }
  }
}
