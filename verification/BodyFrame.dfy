/**
  CreateBodyFrame of library/http/lib/http2.cpp: a body is cut into frames, each behind a header of nine bytes
  that begins with the length of the payload (section 4.1 of RFC 7540).
 */
module BodyFrame {
  import opened Options
  import Bits

  type Byte = n: int | 0 <= n < 256

  const HEADER := 9
  const TWO24: nat := 0x100_0000
  const TWO32: nat := 0x1_0000_0000

  const DATA: Byte := 0
  const CONTINUATION: Byte := 9
  const NONE: Byte := 0
  const END_STREAM: Byte := 1

  // The length field: a number in network order, in three bytes.

  type Word = n: nat | n < 0x1_0000_0000

  /** changeEndian of a 32-bit word. */
  function Swap(w: Word): Word {
    w % 256 * 0x100_0000 + w / 256 % 256 * 0x1_0000 + w / 0x1_0000 % 256 * 256 + w / 0x100_0000
  }

  /** set_length: what the 24-bit field holds afterwards. */
  function LengthField(length: Word): (f: nat)
    ensures f < TWO24
  {
    Swap(length) / 256
  }

  /** get_length. */
  function FieldLength(f: nat): Word
    requires f < TWO24
  {
    Swap(f * 256)
  }

  /** The bytes of the field in memory, which is the order on the wire. */
  function FieldBytes(f: nat): seq<Byte>
    requires f < TWO24
  {
    [f % 256, f / 256 % 256, f / 0x1_0000]
  }

  function BytesField(b: seq<Byte>): (f: nat)
    requires |b| == 3
    ensures f < TWO24
  {
    var x: int, y: int, z: int := b[0], b[1], b[2];
    x + y * 256 + z * 0x1_0000
  }

  /** A word from its four bytes, the most significant first. */
  function WordOf(a: nat, b: nat, c: nat, d: nat): nat {
    a * 0x100_0000 + b * 0x1_0000 + c * 256 + d
  }

  lemma Parts(w: nat, a: nat, b: nat, c: nat, d: nat)
    requires a < 256 && b < 256 && c < 256 && d < 256 && w == WordOf(a, b, c, d)
    ensures w % 256 == d && w / 256 % 256 == c && w / 0x1_0000 % 256 == b && w / 0x100_0000 == a
  {
    assert w / 256 == a * 0x1_0000 + b * 256 + c;
    assert w / 0x1_0000 == a * 256 + b;
  }

  lemma FourBytes(w: Word) returns (a: nat, b: nat, c: nat, d: nat)
    ensures a < 256 && b < 256 && c < 256 && d < 256 && w == WordOf(a, b, c, d)
  {
    var x, y := w / 256, w / 256 / 256;
    assert w == x * 256 + w % 256 && x == y * 256 + x % 256;
    a, b, c, d := y / 256, y % 256, x % 256, w % 256;
  }

  lemma SwapOf(w: Word, a: nat, b: nat, c: nat, d: nat)
    requires a < 256 && b < 256 && c < 256 && d < 256 && w == WordOf(a, b, c, d)
    ensures Swap(w) == WordOf(d, c, b, a) && LengthField(w) == d * 0x1_0000 + c * 256 + b
  {
    Parts(w, a, b, c, d);
  }

  lemma Low24(w: Word, a: nat, b: nat, c: nat, d: nat)
    requires a < 256 && b < 256 && c < 256 && d < 256 && w == WordOf(a, b, c, d)
    ensures w % TWO24 == WordOf(0, b, c, d)
  {
    Bits.DivModUnique(w, TWO24, a, WordOf(0, b, c, d));
  }

  lemma BytesOfField(f: nat, b: nat, c: nat, d: nat)
    requires b < 256 && c < 256 && d < 256 && f == d * 0x1_0000 + c * 256 + b
    ensures FieldBytes(f) == [b, c, d]
  {
    Parts(f, 0, d, c, b);
  }

  /** The bytes on the wire are the three low bytes of the length, the most significant first. */
  lemma LengthIsBigEndian(length: Word)
    ensures FieldBytes(LengthField(length)) == [length / 0x1_0000 % 256, length / 256 % 256, length % 256]
  {
    hide LengthField, FieldBytes;
    var a, b, c, d := FourBytes(length);
    SwapOf(length, a, b, c, d);
    BytesOfField(LengthField(length), b, c, d);
    Parts(length, a, b, c, d);
  }

  lemma FieldOfBytes(f: nat)
    requires f < TWO24
    ensures BytesField(FieldBytes(f)) == f
  {
  }

  /** Reading a length back gives it up to its top byte, so exactly the lengths below 2^24 come back. */
  lemma LengthRoundTripIff(length: Word)
    ensures FieldLength(BytesField(FieldBytes(LengthField(length)))) == length % TWO24
    ensures FieldLength(BytesField(FieldBytes(LengthField(length)))) == length <==> length < TWO24
  {
    hide LengthField, FieldBytes, BytesField, Swap, WordOf;
    FieldOfBytes(LengthField(length));
    var a, b, c, d := FourBytes(length);
    SwapOf(length, a, b, c, d);
    FieldAsWord(LengthField(length), b, c, d);
    SwapOf(LengthField(length) * 256, d, c, b, 0);
    Low24(length, a, b, c, d);
  }

  lemma FieldAsWord(f: nat, b: nat, c: nat, d: nat)
    requires b < 256 && c < 256 && d < 256 && f == d * 0x1_0000 + c * 256 + b
    ensures f * 256 == WordOf(d, c, b, 0) < 0x1_0000_0000
  {
  }

  // The frames.

  datatype Frame = Frame(payload: seq<Byte>, last: bool)

  /** A body in frames of m bytes; the last is what is left over, or a full frame. */
  function Split(body: seq<Byte>, m: nat): (fs: seq<Frame>)
    requires m > 0
    ensures fs != []
    decreases |body|
  {
    if |body| <= m then [Frame(body, true)] else [Frame(body[..m], false)] + Split(body[m..], m)
  }

  function Payloads(fs: seq<Frame>): seq<Byte> {
    if fs == [] then [] else fs[0].payload + Payloads(fs[1..])
  }

  lemma {:induction false} SplitIsBody(body: seq<Byte>, m: nat)
    requires m > 0
    ensures Payloads(Split(body, m)) == body
    decreases |body|
  {
    var fs := Split(body, m);
    if |body| <= m {
      assert fs[1..] == [];
    } else {
      assert fs[1..] == Split(body[m..], m);
      SplitIsBody(body[m..], m);
    }
  }

  /** Each payload is at most m, all but the last are exactly that, and only the last frame ends the stream. */
  lemma {:induction false} SplitShape(body: seq<Byte>, m: nat, i: nat)
    requires m > 0 && i < |Split(body, m)|
    ensures var fs := Split(body, m);
            && (if i == |fs| - 1 then |fs[i].payload| <= m else |fs[i].payload| == m)
            && fs[i].last == (i == |fs| - 1)
    decreases |body|
  {
    if |body| > m && i > 0 {
      SplitShape(body[m..], m, i - 1);
    }
  }

  /** There are max(1, ceil(n / m)) of them. */
  lemma {:induction false} SplitCount(body: seq<Byte>, m: nat)
    requires m > 0
    ensures |Split(body, m)| == if |body| == 0 then 1 else (|body| + m - 1) / m
    decreases |body|
  {
    if |body| > m {
      SplitCount(body[m..], m);
      OneMore(|body|, m);
    } else if |body| > 0 {
      OneOnly(|body|, m);
    }
  }

  lemma OneMore(n: nat, m: nat)
    requires 0 < m < n
    ensures (n + m - 1) / m == 1 + (n - m + m - 1) / m
  {
    DivPlus(n - 1, m);
  }

  lemma OneOnly(n: nat, m: nat)
    requires 0 < n <= m
    ensures (n + m - 1) / m == 1
  {
    DivPlus(n - 1, m);
  }

  lemma DivPlus(x: nat, m: nat)
    requires m > 0
    ensures (x + m) / m == x / m + 1
  {
    Bits.DivModUnique(x + m, m, x / m + 1, x % m);
  }

  // On the wire.

  /** The rest of the header: type, flags and the stream identifier, of which nothing is claimed here. */
  function FrameBytes(payload: seq<Byte>, kind: Byte, flags: Byte, id: seq<Byte>): seq<Byte>
    requires |payload| < TWO24 && |id| == 4
  {
    FieldBytes(LengthField(|payload|)) + [kind, flags] + id + payload
  }

  function FrameType(first: bool): Byte {
    if first then DATA else CONTINUATION
  }

  function Wire(fs: seq<Frame>, first: bool, id: seq<Byte>): seq<Byte>
    requires |id| == 4 && forall i :: 0 <= i < |fs| ==> |fs[i].payload| < TWO24
  {
    if fs == [] then [] else
      FrameBytes(fs[0].payload, FrameType(first), if fs[0].last then END_STREAM else NONE, id) + Wire(fs[1..], false, id)
  }

  /** A reader that follows the length fields until a frame ends the stream; None if bytes are missing. */
  function ReadBody(s: seq<Byte>): Option<seq<Byte>>
    decreases |s|
  {
    if |s| < HEADER then None else
      var n := FieldLength(BytesField(s[..3]));
      if |s| < HEADER + n then None else
        var payload := s[HEADER..HEADER + n];
        if s[4] % 2 == 1 then Some(payload) else
          match ReadBody(s[HEADER + n..])
          case None => None
          case Some(rest) => Some(payload + rest)
  }

  lemma ReadOne(payload: seq<Byte>, kind: Byte, flags: Byte, id: seq<Byte>, tail: seq<Byte>)
    requires |payload| < TWO24 && |id| == 4
    ensures var s := FrameBytes(payload, kind, flags, id) + tail;
            && |s| >= HEADER + |payload| && FieldLength(BytesField(s[..3])) == |payload|
            && s[HEADER..HEADER + |payload|] == payload && s[3] == kind && s[4] == flags && s[5..9] == id
            && s[HEADER + |payload|..] == tail
  {
    hide FieldLength, BytesField, LengthField;
    LengthRoundTripIff(|payload|);
    var head := FieldBytes(LengthField(|payload|));
    var s := FrameBytes(payload, kind, flags, id) + tail;
    assert s[..3] == head;
  }

  ghost predicate Fits(fs: seq<Frame>) {
    forall i :: 0 <= i < |fs| ==> |fs[i].payload| < TWO24
  }

  lemma SplitFits(body: seq<Byte>, m: nat)
    requires 0 < m < TWO24
    ensures Fits(Split(body, m))
  {
    forall i | 0 <= i < |Split(body, m)| ensures |Split(body, m)[i].payload| < TWO24 {
      SplitShape(body, m, i);
    }
  }

  /** The last frame ends the stream, and no other does. */
  ghost predicate EndsOnce(fs: seq<Frame>) {
    fs != [] && forall i :: 0 <= i < |fs| ==> (fs[i].last <==> i == |fs| - 1)
  }

  lemma WireMore(f: Frame, fs: seq<Frame>, first: bool, id: seq<Byte>)
    requires |f.payload| < TWO24 && Fits(fs) && |id| == 4
    ensures Fits([f] + fs)
    ensures Wire([f] + fs, first, id) ==
            FrameBytes(f.payload, FrameType(first), if f.last then END_STREAM else NONE, id) + Wire(fs, false, id)
    ensures Payloads([f] + fs) == f.payload + Payloads(fs)
  {
    hide FrameBytes;
    assert ([f] + fs)[1..] == fs;
  }

  /** A reader gets what the lengths announce, whatever comes behind the last frame. */
  lemma {:induction false} ReadsPayloads(fs: seq<Frame>, first: bool, id: seq<Byte>, tail: seq<Byte>)
    requires Fits(fs) && EndsOnce(fs) && |id| == 4
    ensures ReadBody(Wire(fs, first, id) + tail) == Some(Payloads(fs))
    decreases |fs|
  {
    hide FrameBytes, FieldLength, BytesField, Wire;
    var f, rest := fs[0], fs[1..];
    assert fs == [f] + rest;
    WireMore(f, rest, first, id);
    var more := Wire(rest, false, id);
    var head := FrameBytes(f.payload, FrameType(first), if f.last then END_STREAM else NONE, id);
    Regroup(head, more, tail);
    ReadOne(f.payload, FrameType(first), if f.last then END_STREAM else NONE, id, more + tail);
    if rest == [] {
      assert Payloads(rest) == [] && f.payload + [] == f.payload;
    } else {
      ReadsPayloads(rest, false, id, tail);
    }
  }

  lemma Regroup(a: seq<Byte>, b: seq<Byte>, c: seq<Byte>)
    ensures (a + b) + c == a + (b + c)
  {
  }

  /** A frame as it is seen on the wire (section 4.1 of RFC 7540): type, flags, stream identifier and payload. */
  datatype Seen = Seen(kind: Byte, flags: Byte, id: seq<Byte>, payload: seq<Byte>)

  /** All frames of a stream; None if it ends inside one. */
  function ReadFrames(s: seq<Byte>): Option<seq<Seen>>
    decreases |s|
  {
    if s == [] then Some([])
    else if |s| < HEADER then None else
      var n := FieldLength(BytesField(s[..3]));
      if |s| < HEADER + n then None else
        match ReadFrames(s[HEADER + n..])
        case None => None
        case Some(rest) => Some([Seen(s[3], s[4], s[5..9], s[HEADER..HEADER + n])] + rest)
  }

  /** What is seen of frame i: DATA is type 0 and CONTINUATION type 9, and END_STREAM is flag 1. */
  function SeenAs(fs: seq<Frame>, first: bool, id: seq<Byte>): (seen: seq<Seen>)
    ensures |seen| == |fs|
  {
    seq(|fs|, i requires 0 <= i < |fs| => Seen(if first && i == 0 then 0 else 9, if fs[i].last then 1 else 0, id, fs[i].payload))
  }

  /** The frames on the wire, one behind the other: the first is DATA and the others CONTINUATION, all of one stream. */
  lemma {:induction false} FramesAreSeen(fs: seq<Frame>, first: bool, id: seq<Byte>)
    requires Fits(fs) && |id| == 4
    ensures ReadFrames(Wire(fs, first, id)) == Some(SeenAs(fs, first, id))
    decreases |fs|
  {
    hide FrameBytes, FieldLength, BytesField, Wire;
    if fs == [] {
      assert Wire(fs, first, id) == [] by { NoWire(first, id); }
    } else {
      var f, rest := fs[0], fs[1..];
      assert fs == [f] + rest;
      WireMore(f, rest, first, id);
      ReadOne(f.payload, FrameType(first), if f.last then END_STREAM else NONE, id, Wire(rest, false, id));
      FramesAreSeen(rest, false, id);
      assert SeenAs(fs, first, id) ==
             [Seen(FrameType(first), if f.last then END_STREAM else NONE, id, f.payload)] + SeenAs(rest, false, id);
    }
  }

  lemma NoWire(first: bool, id: seq<Byte>)
    requires |id| == 4
    ensures Wire([], first, id) == []
  {
  }

  lemma SplitEndsOnce(body: seq<Byte>, m: nat)
    requires m > 0
    ensures EndsOnce(Split(body, m))
  {
    forall i | 0 <= i < |Split(body, m)| ensures Split(body, m)[i].last <==> i == |Split(body, m)| - 1 {
      SplitShape(body, m, i);
    }
  }

  /** Following the lengths recovers the body. */
  lemma ReadRecoversBody(body: seq<Byte>, m: nat, first: bool, id: seq<Byte>, tail: seq<Byte>)
    requires 0 < m < TWO24 && |id| == 4
    ensures Fits(Split(body, m)) && ReadBody(Wire(Split(body, m), first, id) + tail) == Some(body)
  {
    hide Split, Wire, ReadBody, Payloads;
    SplitFits(body, m);
    SplitEndsOnce(body, m);
    ReadsPayloads(Split(body, m), first, id, tail);
    SplitIsBody(body, m);
  }

  // The writer, for bodies of every size.

  /** first_body_size: the size of the body is cast to 32 bits before it is compared. */
  function FirstSize(n: nat, m: nat): nat {
    if m <= n % TWO32 then m else n % TWO32
  }

  /** For these sizes the cast does no harm; all bodies below four gigabytes are among them. */
  predicate CastFits(n: nat, m: nat) {
    n < m || n % TWO32 >= m
  }

  /** What lies in the output from position i on; mem is the buffer, from where the writer starts, before the call. */
  function Stale(mem: seq<Byte>, i: nat, k: nat): (s: seq<Byte>) {
    seq(k, j requires 0 <= j < k => if i + j < |mem| then mem[i + j] else 0)
  }

  /** Frames of a writer that has been followed for some turns of its loop; done says that it has ended by then. */
  datatype Output = Output(done: bool, frames: seq<Frame>)

  /**
    The loop and what follows it: each turn announces m bytes and copies f of them; the others are what was in
    the buffer. pos is the place of the next header.
   */
  function Turns(rest: seq<Byte>, m: nat, f: nat, mem: seq<Byte>, pos: nat, turns: nat): Output
    requires f <= m
    decreases turns
  {
    if |rest| <= m then Output(true, [Frame(rest, true)])
    else if turns == 0 then Output(false, [])
    else
      var more := Turns(rest[f..], m, f, mem, pos + HEADER + m, turns - 1);
      Output(more.done, [Frame(Payload(rest, m, f, mem, pos), false)] + more.frames)
  }

  /** The payload of a turn. */
  function Payload(rest: seq<Byte>, m: nat, f: nat, mem: seq<Byte>, pos: nat): (p: seq<Byte>)
    requires f <= m < |rest|
    ensures |p| == m
  {
    rest[..f] + Stale(mem, pos + HEADER + f, m - f)
  }

  function Written(body: seq<Byte>, m: nat, mem: seq<Byte>, turns: nat): Output {
    var f := FirstSize(|body|, m);
    if f == |body| then Output(true, [Frame(body, true)]) else
      var more := Turns(body[f..], m, f, mem, HEADER + f, turns);
      Output(more.done, [Frame(body[..f], false)] + more.frames)
  }

  lemma {:induction false} TurnsFit(rest: seq<Byte>, m: nat, f: nat, mem: seq<Byte>, pos: nat, turns: nat)
    requires f <= m < TWO24
    ensures Fits(Turns(rest, m, f, mem, pos, turns).frames)
    decreases turns
  {
    if |rest| > m && turns > 0 {
      TurnsFit(rest[f..], m, f, mem, pos + HEADER + m, turns - 1);
    }
  }

  lemma WrittenFits(body: seq<Byte>, m: nat, mem: seq<Byte>, turns: nat)
    requires 0 < m < TWO24
    ensures Fits(Written(body, m, mem, turns).frames)
  {
    var f := FirstSize(|body|, m);
    if f != |body| {
      TurnsFit(body[f..], m, f, mem, HEADER + f, turns);
    }
  }

  /** If full frames are copied, the loop makes the rest of the split, in a turn for each frame but the last. */
  lemma {:induction false} FullTurns(rest: seq<Byte>, m: nat, mem: seq<Byte>, pos: nat, turns: nat)
    requires m > 0
    ensures Turns(rest, m, m, mem, pos, turns).done <==> |Split(rest, m)| <= turns + 1
    ensures Turns(rest, m, m, mem, pos, turns).done ==> Turns(rest, m, m, mem, pos, turns).frames == Split(rest, m)
    decreases turns
  {
    if |rest| > m && turns > 0 {
      FullTurns(rest[m..], m, mem, pos + HEADER + m, turns - 1);
      assert rest[..m] + Stale(mem, pos + HEADER + m, 0) == rest[..m];
    }
  }

  /** The loop ends if it gets on at all. */
  lemma {:induction false} TurnsEnd(rest: seq<Byte>, m: nat, f: nat, mem: seq<Byte>, pos: nat, turns: nat)
    requires f <= m
    ensures f > 0 && turns >= |rest| ==> Turns(rest, m, f, mem, pos, turns).done
    ensures f == 0 && |rest| > m ==> !Turns(rest, m, f, mem, pos, turns).done
    decreases turns
  {
    if |rest| > m && turns > 0 {
      assert f == 0 ==> rest[f..] == rest;
      TurnsEnd(rest[f..], m, f, mem, pos + HEADER + m, turns - 1);
    }
  }

  /** How long it takes does not matter to what is written. */
  lemma {:induction false} TurnsLength(rest: seq<Byte>, m: nat, f: nat, mem: seq<Byte>, pos: nat, turns: nat)
    requires f <= m && Turns(rest, m, f, mem, pos, turns).done
    ensures var fs := Turns(rest, m, f, mem, pos, turns).frames;
            EndsOnce(fs) && |Payloads(fs)| >= |rest| && (f < m < |rest| ==> |Payloads(fs)| > |rest|)
    decreases turns
  {
    if |rest| <= m {
      assert [Frame(rest, true)][1..] == [];
    } else {
      var more := Turns(rest[f..], m, f, mem, pos + HEADER + m, turns - 1).frames;
      var frame := Frame(Payload(rest, m, f, mem, pos), false);
      TurnsLength(rest[f..], m, f, mem, pos + HEADER + m, turns - 1);
      assert ([frame] + more)[1..] == more;
      OneMoreEnds(frame, more);
    }
  }

  lemma OneMoreEnds(f: Frame, fs: seq<Frame>)
    requires !f.last && EndsOnce(fs)
    ensures EndsOnce([f] + fs)
  {
    forall i | 0 <= i < |[f] + fs| ensures ([f] + fs)[i].last <==> i == |fs| {
      assert i > 0 ==> ([f] + fs)[i] == fs[i - 1];
    }
  }

  /** The writer ends exactly on the empty body and on those whose size is no multiple of four gigabytes. */
  lemma EndsIff(body: seq<Byte>, m: nat, mem: seq<Byte>)
    requires 0 < m < TWO24
    ensures (exists turns: nat :: Written(body, m, mem, turns).done) <==> |body| == 0 || |body| % TWO32 != 0
  {
    var f := FirstSize(|body|, m);
    if f == |body| {
      assert Written(body, m, mem, 0).done;
    } else if f == 0 {
      assert body[f..] == body;
      forall turns: nat ensures !Written(body, m, mem, turns).done {
        TurnsEnd(body, m, f, mem, HEADER + f, turns);
      }
    } else {
      TurnsEnd(body[f..], m, f, mem, HEADER + f, |body|);
      assert Written(body, m, mem, |body|).done;
    }
  }

  /** A body of four gigabytes: a first frame of no bytes, and then the loop goes on for ever. */
  lemma FourGigabytesNeverEnd(body: seq<Byte>, m: nat, mem: seq<Byte>, turns: nat)
    requires 0 < m < TWO24 && |body| == TWO32
    ensures !Written(body, m, mem, turns).done && Written(body, m, mem, turns).frames[0] == Frame([], false)
  {
    EndsIff(body, m, mem);
  }

  /** Where the cast does no harm, the frames are those of the split. */
  lemma WrittenIsSplit(body: seq<Byte>, m: nat, mem: seq<Byte>, turns: nat)
    requires 0 < m < TWO24 && CastFits(|body|, m)
    ensures Written(body, m, mem, turns).done <==> |Split(body, m)| <= turns + 2
    ensures Written(body, m, mem, turns).done ==> Written(body, m, mem, turns).frames == Split(body, m)
  {
    var f := FirstSize(|body|, m);
    if f != |body| {
      assert f == m < |body|;
      FullTurns(body[m..], m, mem, HEADER + m, turns);
    }
  }

  /** Where it does harm, more bytes are announced than the body has. */
  lemma WrittenIsLonger(body: seq<Byte>, m: nat, mem: seq<Byte>, turns: nat)
    requires 0 < m < TWO24 && !CastFits(|body|, m) && Written(body, m, mem, turns).done
    ensures var fs := Written(body, m, mem, turns).frames; EndsOnce(fs) && |Payloads(fs)| > |body|
  {
    hide Turns, Payloads, EndsOnce;
    var f := FirstSize(|body|, m);
    var more := Turns(body[f..], m, f, mem, HEADER + f, turns).frames;
    TurnsLength(body[f..], m, f, mem, HEADER + f, turns);
    OneMoreEnds(Frame(body[..f], false), more);
    WireMorePayloads(Frame(body[..f], false), more);
  }

  lemma WireMorePayloads(f: Frame, fs: seq<Frame>)
    ensures Payloads([f] + fs) == f.payload + Payloads(fs)
  {
    assert ([f] + fs)[1..] == fs;
  }

  /** When the writer has ended: exactly if the cast does no harm, the bytes are those of the split and give the body back. */
  lemma WrittenIff(body: seq<Byte>, m: nat, mem: seq<Byte>, turns: nat, id: seq<Byte>, tail: seq<Byte>)
    requires 0 < m < TWO24 && |id| == 4 && Written(body, m, mem, turns).done
    ensures var fs := Written(body, m, mem, turns).frames;
            && Fits(fs) && Fits(Split(body, m))
            && (Wire(fs, true, id) == Wire(Split(body, m), true, id) <==> CastFits(|body|, m))
            && (ReadBody(Wire(fs, true, id) + tail) == Some(body) <==> CastFits(|body|, m))
  {
    hide Written, Split, Wire, ReadBody, Payloads, CastFits, EndsOnce;
    WrittenFits(body, m, mem, turns);
    ReadRecoversBody(body, m, true, id, tail);
    if CastFits(|body|, m) {
      WrittenIsSplit(body, m, mem, turns);
    } else {
      WrittenIsLonger(body, m, mem, turns);
      ReadsPayloads(Written(body, m, mem, turns).frames, true, id, tail);
    }
  }

  /** A receiver gets the body, after however many turns, exactly if the cast does no harm. */
  lemma ReceivedIff(body: seq<Byte>, m: nat, mem: seq<Byte>, id: seq<Byte>)
    requires 0 < m < TWO24 && |id| == 4
    ensures (exists turns: nat :: Received(body, m, mem, turns, id)) <==> CastFits(|body|, m)
    ensures |body| < TWO32 ==> CastFits(|body|, m)
  {
    hide Written, Wire, ReadBody, Received;
    if CastFits(|body|, m) {
      EndsIff(body, m, mem);
      var turns: nat :| Written(body, m, mem, turns).done;
      WrittenIff(body, m, mem, turns, id, []);
      ReceivedSame(body, m, mem, turns, id);
    } else {
      forall turns: nat ensures !Received(body, m, mem, turns, id) {
        ReceivedSame(body, m, mem, turns, id);
        if Written(body, m, mem, turns).done {
          WrittenIff(body, m, mem, turns, id, []);
        }
      }
    }
  }

  ghost predicate Received(body: seq<Byte>, m: nat, mem: seq<Byte>, turns: nat, id: seq<Byte>)
    requires |id| == 4
  {
    var w := Written(body, m, mem, turns);
    w.done && Fits(w.frames) && ReadBody(Wire(w.frames, true, id)) == Some(body)
  }

  lemma ReceivedSame(body: seq<Byte>, m: nat, mem: seq<Byte>, turns: nat, id: seq<Byte>)
    requires 0 < m < TWO24 && |id| == 4
    ensures var w := Written(body, m, mem, turns);
            Fits(w.frames) && (Received(body, m, mem, turns, id) <==> w.done && ReadBody(Wire(w.frames, true, id) + []) == Some(body))
  {
    hide Written, Wire, ReadBody;
    var w := Written(body, m, mem, turns);
    WrittenFits(body, m, mem, turns);
    assert Wire(w.frames, true, id) + [] == Wire(w.frames, true, id);
  }

  // In the buffer.

  method Put(out: array<Byte>, at: nat, bytes: seq<Byte>)
    requires at + |bytes| <= out.Length
    modifies out
    ensures forall k :: at <= k < at + |bytes| ==> out[k] == bytes[k - at]
    ensures forall k :: 0 <= k < at || at + |bytes| <= k < out.Length ==> out[k] == old(out[k])
  {
    for i := 0 to |bytes|
      invariant forall k :: at <= k < at + i ==> out[k] == bytes[k - at]
      invariant forall k :: 0 <= k < at || at + i <= k < out.Length ==> out[k] == old(out[k])
    {
      out[at + i] := bytes[i];
    }
  }

  /** Room for the header and the payload is left, as much of the payload as there is copied, and the header made in place. */
  method PutFrame(out: array<Byte>, at: nat, part: seq<Byte>, size: nat, kind: Byte, flags: Byte, id: seq<Byte>) returns (end: nat)
    requires |part| <= size < TWO24 && |id| == 4 && at + HEADER + size <= out.Length
    modifies out
    ensures end == at + HEADER + size
    ensures out[..end] ==
            old(out[..at]) + FrameBytes(part + old(out[at + HEADER + |part|..at + HEADER + size]), kind, flags, id)
    ensures forall k :: end <= k < out.Length ==> out[k] == old(out[k])
  {
    hide FieldBytes, LengthField;
    var head := FieldBytes(LengthField(size)) + [kind, flags] + id;
    HeadLength(size);
    end := at + HEADER + size;
    ghost var was := out[..];
    Put(out, at + HEADER, part);
    Put(out, at, head);
    Assembled(was, out[..], at, head, part, end);
    assert out[..][..end] == out[..end];
  }

  /** The bytes from at to end are the header, what was copied, and what was there before. */
  lemma Assembled(was: seq<Byte>, now: seq<Byte>, at: nat, head: seq<Byte>, part: seq<Byte>, end: nat)
    requires at + |head| + |part| <= end <= |was| == |now|
    requires forall k :: at <= k < at + |head| ==> now[k] == head[k - at]
    requires forall k :: at + |head| <= k < at + |head| + |part| ==> now[k] == part[k - at - |head|]
    requires forall k :: 0 <= k < at || at + |head| + |part| <= k < |was| ==> now[k] == was[k]
    ensures now[..end] == was[..at] + (head + (part + was[at + |head| + |part|..end]))
  {
  }

  lemma HeadLength(length: Word)
    ensures |FieldBytes(LengthField(length))| == 3
  {
  }

  /** A frame whose payload is all there. */
  method PutWhole(out: array<Byte>, at: nat, payload: seq<Byte>, kind: Byte, flags: Byte, id: seq<Byte>) returns (end: nat)
    requires |payload| < TWO24 && |id| == 4 && at + HEADER + |payload| <= out.Length
    modifies out
    ensures end == at + HEADER + |payload| && out[..end] == old(out[..at]) + FrameBytes(payload, kind, flags, id)
    ensures forall k :: end <= k < out.Length ==> out[k] == old(out[k])
  {
    hide FrameBytes;
    var size := |payload|;
    assert payload + out[at + HEADER + size..at + HEADER + size] == payload;
    end := PutFrame(out, at, payload, size, kind, flags, id);
  }

  /** CreateBodyFrame, followed for at most so many turns of its loop. */
  method CreateBodyFrame(out: array<Byte>, at: nat, maxFrameSize: nat, body: seq<Byte>, id: seq<Byte>, turns: nat)
    returns (done: bool, end: nat)
    requires HEADER < maxFrameSize < TWO24 + HEADER && |id| == 4 && at <= out.Length
    requires Fits(Written(body, maxFrameSize - HEADER, out[at..], turns).frames)
    requires at + |Wire(Written(body, maxFrameSize - HEADER, out[at..], turns).frames, true, id)| <= out.Length
    modifies out
    ensures old(Fits(Written(body, maxFrameSize - HEADER, out[at..], turns).frames)) && out.Length >= end
    ensures done == old(Written(body, maxFrameSize - HEADER, out[at..], turns).done)
    ensures out[..end] == old(out[..at] + Wire(Written(body, maxFrameSize - HEADER, out[at..], turns).frames, true, id))
    ensures forall k :: end <= k < out.Length ==> out[k] == old(out[k])
  {
    hide Written, Turns, Wire, FrameBytes, Stale, Continues;
    ghost var m: nat, mem := maxFrameSize - HEADER, out[at..];
    var maxBody := maxFrameSize - HEADER;
    var first := FirstSize(|body|, maxBody);
    WireFirst(body, m, mem, turns, id);
    if first == |body| {
      end := PutWhole(out, at, body, DATA, END_STREAM, id);
      return true, end;
    }
    StartContinues(out[..at], body, m, mem, turns, id);
    ghost var whole := out[..at] + Wire(Written(body, m, mem, turns).frames, true, id);
    end := PutWhole(out, at, body[..first], DATA, NONE, id);
    done, end := PutTurns(out, end, body, first, maxBody, id, turns, mem, at, whole, Written(body, m, mem, turns).done);
  }

  /** The loop and the last frame. mem, at, whole and ends are what the call knows of its start and of its result. */
  method PutTurns(out: array<Byte>, start: nat, body: seq<Byte>, first: nat, maxBody: nat, id: seq<Byte>, turns: nat,
                  ghost mem: seq<Byte>, ghost at: nat, ghost whole: seq<Byte>, ghost ends: bool)
    returns (done: bool, end: nat)
    requires 0 < maxBody < TWO24 && first <= maxBody && first <= |body| && |id| == 4
    requires at <= start <= out.Length == at + |mem| && |whole| <= out.Length
    requires forall k :: start <= k < out.Length ==> out[k] == mem[k - at]
    requires Continues(out[..start], whole, ends, body[first..], maxBody, first, mem, start - at, turns, id)
    modifies out
    ensures end == |whole| && out[..end] == whole && done == ends
    ensures forall k :: end <= k < out.Length ==> out[k] == old(out[k])
  {
    hide Turns, Wire, FrameBytes, Stale, Continues;
    var curr: nat, left: nat := first, turns;
    end := start;
    while |body| - curr > maxBody && left > 0
      invariant curr <= |body| && start <= end <= out.Length && left <= turns
      invariant Continues(out[..end], whole, ends, body[curr..], maxBody, first, mem, end - at, left, id)
      invariant forall k :: end <= k < out.Length ==> out[k] == old(out[k])
    {
      TurnContinues(out[..end], whole, ends, body[curr..], maxBody, first, mem, end - at, left, id);
      StaleLeft(out[..], mem, at, end, first, maxBody);
      Onward(body, curr, first);
      end := PutFrame(out, end, body[curr..curr + first], maxBody, CONTINUATION, NONE, id);
      curr, left := curr + first, left - 1;
    }
    LastContinues(out[..end], whole, ends, body[curr..], maxBody, first, mem, end - at, left, id);
    done := |body| - curr <= maxBody;
    if done {
      end := PutWhole(out, end, body[curr..], CONTINUATION, END_STREAM, id);
    }
  }

  /** What is written and what the loop will still write make up the whole. */
  ghost predicate Continues(front: seq<Byte>, whole: seq<Byte>, done: bool,
                            rest: seq<Byte>, m: nat, f: nat, mem: seq<Byte>, pos: nat, left: nat, id: seq<Byte>)
    requires f <= m && |id| == 4
  {
    var w := Turns(rest, m, f, mem, pos, left);
    Fits(w.frames) && w.done == done && front + Wire(w.frames, false, id) == whole
  }

  lemma StartContinues(front: seq<Byte>, body: seq<Byte>, m: nat, mem: seq<Byte>, turns: nat, id: seq<Byte>)
    requires 0 < m < TWO24 && |id| == 4 && FirstSize(|body|, m) != |body|
    ensures var w, f := Written(body, m, mem, turns), FirstSize(|body|, m);
            && f < |body| && f <= m && Fits(w.frames) && HEADER + f <= |Wire(w.frames, true, id)|
            && Continues(front + FrameBytes(body[..f], DATA, NONE, id), front + Wire(w.frames, true, id), w.done,
                         body[f..], m, f, mem, HEADER + f, turns, id)
  {
    hide Written, Turns, Wire, FrameBytes;
    WireFirst(body, m, mem, turns, id);
    var f := FirstSize(|body|, m);
    Regroup(front, FrameBytes(body[..f], DATA, NONE, id), Wire(Turns(body[f..], m, f, mem, HEADER + f, turns).frames, false, id));
  }

  lemma TurnContinues(front: seq<Byte>, whole: seq<Byte>, done: bool,
                      rest: seq<Byte>, m: nat, f: nat, mem: seq<Byte>, pos: nat, left: nat, id: seq<Byte>)
    requires f <= m && |id| == 4 && 0 < m < TWO24 && Continues(front, whole, done, rest, m, f, mem, pos, left, id)
    requires |rest| > m && left > 0
    ensures |front| + HEADER + m <= |whole|
    ensures Continues(front + FrameBytes(Payload(rest, m, f, mem, pos), CONTINUATION, NONE, id), whole, done,
                      rest[f..], m, f, mem, pos + HEADER + m, left - 1, id)
  {
    hide Turns, Wire, FrameBytes;
    WireTurn(rest, m, f, mem, pos, left, id);
    Regroup(front, FrameBytes(Payload(rest, m, f, mem, pos), CONTINUATION, NONE, id),
            Wire(Turns(rest[f..], m, f, mem, pos + HEADER + m, left - 1).frames, false, id));
  }

  lemma LastContinues(front: seq<Byte>, whole: seq<Byte>, done: bool,
                      rest: seq<Byte>, m: nat, f: nat, mem: seq<Byte>, pos: nat, left: nat, id: seq<Byte>)
    requires f <= m && |id| == 4 && 0 < m < TWO24 && Continues(front, whole, done, rest, m, f, mem, pos, left, id)
    requires |rest| <= m || left == 0
    ensures if |rest| <= m then
              done && whole == front + FrameBytes(rest, CONTINUATION, END_STREAM, id) && |whole| == |front| + HEADER + |rest|
            else !done && whole == front
  {
    hide Turns, Wire, FrameBytes;
    WireTurn(rest, m, f, mem, pos, left, id);
    assert front + [] == front;
  }

  lemma Onward(body: seq<Byte>, curr: nat, f: nat)
    requires curr + f <= |body|
    ensures body[curr..][..f] == body[curr..curr + f] && body[curr..][f..] == body[curr + f..]
  {
  }

  /** The buffer behind the cursor is still as it was. */
  lemma StaleLeft(now: seq<Byte>, mem: seq<Byte>, at: nat, end: nat, f: nat, m: nat)
    requires at <= end && f <= m && end + HEADER + m <= |now| == at + |mem|
    requires forall k :: end <= k < |now| ==> now[k] == mem[k - at]
    ensures Stale(mem, end - at + HEADER + f, m - f) == now[end + HEADER + f..end + HEADER + m]
  {
  }

  lemma WireFirst(body: seq<Byte>, m: nat, mem: seq<Byte>, turns: nat, id: seq<Byte>)
    requires 0 < m < TWO24 && |id| == 4
    ensures var w, f := Written(body, m, mem, turns), FirstSize(|body|, m);
            && f <= |body| && f <= m && Fits(w.frames)
            && if f == |body| then w.done && Wire(w.frames, true, id) == FrameBytes(body, DATA, END_STREAM, id) &&
                    |FrameBytes(body, DATA, END_STREAM, id)| == HEADER + |body|
               else var more := Turns(body[f..], m, f, mem, HEADER + f, turns);
                    && Fits(more.frames) && w.done == more.done
                    && Wire(w.frames, true, id) == FrameBytes(body[..f], DATA, NONE, id) + Wire(more.frames, false, id)
    ensures |FrameBytes(body[..FirstSize(|body|, m)], DATA, NONE, id)| == HEADER + FirstSize(|body|, m)
  {
    hide Turns, Wire, FrameBytes;
    var f := FirstSize(|body|, m);
    WrittenFits(body, m, mem, turns);
    FrameLength(body[..f], DATA, NONE, id);
    if f == |body| {
      FrameLength(body, DATA, END_STREAM, id);
      WireOne(Frame(body, true), true, id);
    } else {
      TurnsFit(body[f..], m, f, mem, HEADER + f, turns);
      WireMore(Frame(body[..f], false), Turns(body[f..], m, f, mem, HEADER + f, turns).frames, true, id);
    }
  }

  lemma WireNothing(id: seq<Byte>)
    requires |id| == 4
    ensures Wire([], false, id) == []
  {
  }

  lemma WireOne(f: Frame, first: bool, id: seq<Byte>)
    requires |f.payload| < TWO24 && |id| == 4
    ensures Wire([f], first, id) == FrameBytes(f.payload, FrameType(first), if f.last then END_STREAM else NONE, id)
  {
    hide FrameBytes;
    assert [f][1..] == [];
  }

  lemma FrameLength(payload: seq<Byte>, kind: Byte, flags: Byte, id: seq<Byte>)
    requires |payload| < TWO24 && |id| == 4
    ensures |FrameBytes(payload, kind, flags, id)| == HEADER + |payload|
  {
    hide LengthField;
  }

  lemma WireTurn(rest: seq<Byte>, m: nat, f: nat, mem: seq<Byte>, pos: nat, turns: nat, id: seq<Byte>)
    requires 0 < m < TWO24 && f <= m && |id| == 4
    ensures var w := Turns(rest, m, f, mem, pos, turns);
            && Fits(w.frames)
            && if |rest| <= m then
                 w.done && Wire(w.frames, false, id) == FrameBytes(rest, CONTINUATION, END_STREAM, id) &&
                 |FrameBytes(rest, CONTINUATION, END_STREAM, id)| == HEADER + |rest|
               else if turns == 0 then !w.done && Wire(w.frames, false, id) == []
               else var payload := Payload(rest, m, f, mem, pos);
                    var more := Turns(rest[f..], m, f, mem, pos + HEADER + m, turns - 1);
                    && Fits(more.frames) && w.done == more.done
                    && |FrameBytes(payload, CONTINUATION, NONE, id)| == HEADER + m
                    && Wire(w.frames, false, id) == FrameBytes(payload, CONTINUATION, NONE, id) + Wire(more.frames, false, id)
  {
    hide Wire, FrameBytes, Stale;
    TurnsFit(rest, m, f, mem, pos, turns);
    assert Wire([], false, id) == [] by { WireNothing(id); }
    if |rest| <= m {
      FrameLength(rest, CONTINUATION, END_STREAM, id);
      WireOne(Frame(rest, true), false, id);
    } else if turns > 0 {
      var payload := Payload(rest, m, f, mem, pos);
      TurnsFit(rest[f..], m, f, mem, pos + HEADER + m, turns - 1);
      FrameLength(payload, CONTINUATION, NONE, id);
      WireMore(Frame(payload, false), Turns(rest[f..], m, f, mem, pos + HEADER + m, turns - 1).frames, false, id);
    }
  }
}
