/** The resynchronising decoder of the binary frame format (app3.py,
    packet_stream). A frame on the wire is

      AA 55 | type | length (big-endian, 2 bytes) | payload | checksum

    where the checksum is the XOR of type, both length bytes and the payload. */
module FrameDecoder {
  import opened Common
  import opened Checksum

  const HeaderFirst: byte := 0xAA
  const HeaderSecond: byte := 0x55

  /** Bytes buffered before the declared length is read: the header, the
      type, the two length bytes and one more (app3.py:89). */
  const MinBuffered: nat := 6

  /** A validated frame: its type byte and its payload. */
  datatype Frame = Frame(typ: byte, payload: seq<byte>)

  /** What the inner loop yields from a buffer, and the buffer it leaves. */
  datatype Drained = Drained(frames: seq<Frame>, rest: seq<byte>)

  predicate HeaderAt(s: seq<byte>, i: int)
  {
    0 <= i && i + 1 < |s| && s[i] == HeaderFirst && s[i + 1] == HeaderSecond
  }

  predicate HasHeader(s: seq<byte>)
  {
    exists i :: 0 <= i < |s| && HeaderAt(s, i)
  }

  /** The search of `bytes.find(HEADER)` from position `i` on. */
  function SearchHeader(s: seq<byte>, i: nat): (idx: int)
    requires i <= |s|
    ensures idx == -1 || (i <= idx && HeaderAt(s, idx))
    ensures forall j :: i <= j < (if idx == -1 then |s| else idx) ==> !HeaderAt(s, j)
    decreases |s| - i
  {
    if i + 1 >= |s| then -1
    else if s[i] == HeaderFirst && s[i + 1] == HeaderSecond then i
    else SearchHeader(s, i + 1)
  }

  /** `bytes.find(HEADER)`: the first index of AA 55 in `s`, or -1. */
  function FindHeader(s: seq<byte>): (idx: int)
    ensures idx == -1 || HeaderAt(s, idx)
    ensures forall j :: 0 <= j < (if idx == -1 then |s| else idx) ==> !HeaderAt(s, j)
  {
    SearchHeader(s, 0)
  }

  /** The declared payload length, `(buffer[3] << 8) | buffer[4]`. */
  function DeclaredLength(b: seq<byte>): nat
    requires |b| >= 5
  {
    (b[3] as int) * 256 + b[4] as int
  }

  /** `total_len`: header, type, length field, payload and checksum; at
      least the six bytes of an empty frame, and the 16-bit length field
      bounds it. */
  function FrameLength(b: seq<byte>): (n: nat)
    requires |b| >= 5
    ensures MinBuffered <= n < MinBuffered + 65536
  {
    2 + 1 + 2 + DeclaredLength(b) + 1
  }

  /** The two states in which the inner loop stops: either no header is
      buffered and at most one byte is kept, or the buffer starts at a
      header and the frame there is not complete yet. */
  predicate Settled(s: seq<byte>)
  {
    || (!HasHeader(s) && |s| <= 1)
    || (HeaderAt(s, 0) && (|s| < MinBuffered || |s| < FrameLength(s)))
  }

  predicate IsSuffix(r: seq<byte>, s: seq<byte>)
  {
    |r| <= |s| && r == s[|s| - |r|..]
  }

  lemma SuffixTransitive(r: seq<byte>, s: seq<byte>, t: seq<byte>)
    requires IsSuffix(r, s) && IsSuffix(s, t)
    ensures IsSuffix(r, t)
  {
    assert t[|t| - |s|..][|s| - |r|..] == t[|t| - |r|..];
  }

  /** The outcome of one pass of the inner loop of packet_stream: break
      keeping `kept`, drop a frame whose checksum is wrong, or yield one. */
  datatype Step =
    | Wait(kept: seq<byte>)
    | Skip(rest: seq<byte>)
    | Emit(frame: Frame, rest: seq<byte>)

  /** One pass over a buffer that starts at a header (app3.py:89-103):
      wait for more bytes, drop a frame whose checksum is wrong, or yield
      it; either way the whole `total_len` bytes are consumed. */
  function StepAt(b: seq<byte>): (r: Step)
    requires HeaderAt(b, 0)
    ensures r.Wait? <==> (|b| < MinBuffered || |b| < FrameLength(b))
    ensures r.Wait? ==> r.kept == b
    ensures !r.Wait? ==> r.rest == b[FrameLength(b)..]
    ensures !r.Wait? ==> |r.rest| < |b| && IsSuffix(r.rest, b)
  {
    if |b| < MinBuffered || |b| < FrameLength(b) then
      Wait(b)
    else
      var total := FrameLength(b);
      if b[total - 1] != Xor(b[2..total - 1]) then Skip(b[total..])
      else Emit(Frame(b[2], b[5..total - 1]), b[total..])
  }

  /** One pass of the inner loop (app3.py:83-103): without a header only
      the last byte is kept, otherwise the bytes before the header are
      dropped and the pass goes on from it. */
  function StepOnce(buf: seq<byte>): (r: Step)
    ensures r.Wait? ==> IsSuffix(r.kept, buf)
    ensures !r.Wait? ==> |r.rest| < |buf| && IsSuffix(r.rest, buf)
  {
    var idx := FindHeader(buf);
    if idx == -1 then
      Wait(if |buf| > 0 then buf[|buf| - 1..] else [])
    else
      var r := StepAt(buf[idx..]);
      SuffixTransitive(if r.Wait? then r.kept else r.rest, buf[idx..], buf);
      r
  }

  /** The whole inner `while True` loop as a function of the buffer: the
      frames it yields, in order, and the buffer it breaks with. The
      decoder only ever drops a prefix of its buffer. */
  function Drain(buf: seq<byte>): (r: Drained)
    ensures IsSuffix(r.rest, buf)
    decreases |buf|
  {
    match StepOnce(buf)
    case Wait(kept) => Drained([], kept)
    case Skip(rest) =>
      var d := Drain(rest);
      SuffixTransitive(d.rest, rest, buf);
      d
    case Emit(f, rest) =>
      var d := Drain(rest);
      SuffixTransitive(d.rest, rest, buf);
      Drained([f] + d.frames, d.rest)
  }

  /** A pass waits only in one of the two settled states. */
  lemma WaitIsSettled(buf: seq<byte>)
    requires StepOnce(buf).Wait?
    ensures Settled(StepOnce(buf).kept)
  {
    var idx := FindHeader(buf);
    if idx != -1 {
      StepOnceAtHeader(buf, idx);
    }
  }

  /** The inner loop always breaks in a settled state: no header and at
      most one byte kept, or an incomplete frame starting at a header. */
  lemma {:induction false} DrainSettles(buf: seq<byte>)
    ensures Settled(Drain(buf).rest)
    decreases |buf|
  {
    match StepOnce(buf)
    case Wait(kept) => WaitIsSettled(buf);
    case Skip(rest) => DrainSettles(rest);
    case Emit(f, rest) => DrainSettles(rest);
  }

  /** Drain after one pass, case by case. */
  lemma DrainAfterStep(buf: seq<byte>, step: Step)
    requires step == StepOnce(buf)
    ensures step.Wait? ==> Drain(buf) == Drained([], step.kept)
    ensures step.Skip? ==> Drain(buf) == Drain(step.rest)
    ensures step.Emit? ==> Drain(buf) == Drained([step.frame] + Drain(step.rest).frames, Drain(step.rest).rest)
  {
  }

  lemma NoFramesBefore(later: seq<Frame>)
    ensures [] + later == later
  {
  }

  lemma FrameBefore(f: Frame, done: seq<Frame>, later: seq<Frame>)
    ensures [f] + (done + later) == ([f] + done) + later
  {
  }

  lemma AppendFrame(done: seq<Frame>, f: Frame, later: seq<Frame>)
    ensures (done + [f]) + later == done + ([f] + later)
  {
  }

  /** The first header is where FindHeader says: a header at `i` with none
      before it, or none at all, determines the result. */
  lemma FindHeaderIs(s: seq<byte>, i: int)
    requires (HeaderAt(s, i) && forall j :: 0 <= j < i ==> !HeaderAt(s, j))
          || (i == -1 && forall j :: 0 <= j < |s| ==> !HeaderAt(s, j))
    ensures FindHeader(s) == i
  {
  }

  /** A prefix of `n` positions at which no header starts is skipped by
      the search. */
  lemma FindHeaderSkips(x: seq<byte>, n: nat)
    requires n <= |x|
    requires forall j :: 0 <= j < n ==> !HeaderAt(x, j)
    ensures FindHeader(x) == if FindHeader(x[n..]) == -1 then -1 else n + FindHeader(x[n..])
  {
    var k := FindHeader(x[n..]);
    forall j | n <= j < |x|
      ensures HeaderAt(x, j) == HeaderAt(x[n..], j - n)
    {
    }
    if k == -1 {
      FindHeaderIs(x, -1);
    } else {
      FindHeaderIs(x, n + k);
    }
  }

  /** Appending bytes changes no header starting before the last byte. */
  lemma HeadersKept(a: seq<byte>, b: seq<byte>, n: nat)
    requires n < |a|
    ensures forall j :: 0 <= j < n ==> HeaderAt(a + b, j) == HeaderAt(a, j)
  {
  }

  /** Appending bytes does not move the first header. */
  lemma FindHeaderExtends(a: seq<byte>, b: seq<byte>)
    requires FindHeader(a) >= 0
    ensures FindHeader(a + b) == FindHeader(a)
  {
    var i := FindHeader(a);
    HeadersKept(a, b, i + 1);
    FindHeaderIs(a + b, i);
  }

  /** Where there is no header, a pass keeps the last byte. */
  lemma StepOnceWithoutHeader(buf: seq<byte>)
    requires FindHeader(buf) == -1
    ensures StepOnce(buf) == Wait(if |buf| > 0 then buf[|buf| - 1..] else [])
  {
  }

  /** Where there is a header, a pass starts from it. */
  lemma StepOnceAtHeader(buf: seq<byte>, idx: int)
    requires idx == FindHeader(buf) && idx >= 0
    ensures StepOnce(buf) == StepAt(buf[idx..])
  {
  }

  /** Drain depends on its buffer only through the first pass. */
  lemma DrainBySteps(x: seq<byte>, y: seq<byte>)
    requires StepOnce(x) == StepOnce(y)
    ensures Drain(x) == Drain(y)
  {
  }

  /** Without a header in `a`, a pass over `a + b` sees only the last
      byte of `a`: the one a header split across two reads may start with. */
  lemma StepExtendsWithoutHeader(a: seq<byte>, b: seq<byte>)
    requires |a| > 0 && FindHeader(a) == -1
    ensures StepOnce(a + b) == StepOnce(a[|a| - 1..] + b)
  {
    FindPastLastByte(a, b);
    if FindHeader(a[|a| - 1..] + b) == -1 {
      NoHeaderEither(a + b, a[|a| - 1..] + b);
    } else {
      SameHeaderTail(a + b, a[|a| - 1..] + b, |a| - 1);
    }
  }

  /** Two buffers without a header that end in the same byte wait alike. */
  lemma NoHeaderEither(x: seq<byte>, y: seq<byte>)
    requires FindHeader(x) == -1 && FindHeader(y) == -1
    requires |x| > 0 && |y| > 0 && x[|x| - 1] == y[|y| - 1]
    ensures StepOnce(x) == StepOnce(y)
  {
    StepOnceWithoutHeader(x);
    StepOnceWithoutHeader(y);
    assert x[|x| - 1..] == y[|y| - 1..];
  }

  /** Two buffers whose first headers start the same bytes take the same
      pass. */
  lemma SameHeaderTail(x: seq<byte>, y: seq<byte>, n: nat)
    requires FindHeader(y) >= 0 && FindHeader(x) == n + FindHeader(y)
    requires n <= |x| && x[n..] == y
    ensures StepOnce(x) == StepOnce(y)
  {
    var k := FindHeader(y);
    assert x[n + k..] == y[k..];
    StepOnceAtHeader(x, n + k);
    StepOnceAtHeader(y, k);
  }

  /** Without a header in `a`, the first header of `a + b` is the first
      header of the last byte of `a` followed by `b`, shifted. */
  lemma FindPastLastByte(a: seq<byte>, b: seq<byte>)
    requires |a| > 0 && FindHeader(a) == -1
    ensures var y := a[|a| - 1..] + b;
      (a + b)[|a| - 1..] == y
      && FindHeader(a + b) == if FindHeader(y) == -1 then -1 else |a| - 1 + FindHeader(y)
  {
    var n := |a| - 1;
    assert (a + b)[n..] == a[n..] + b;
    HeadersKept(a, b, n);
    FindHeaderSkips(a + b, n);
  }

  /** When `a` holds an incomplete frame from `idx` on, a pass over `a + b`
      is a pass over that frame's bytes followed by `b`. */
  lemma StepExtendsWaiting(a: seq<byte>, b: seq<byte>, idx: int)
    requires idx == FindHeader(a) && idx >= 0
    requires |a[idx..]| < MinBuffered || |a[idx..]| < FrameLength(a[idx..])
    ensures StepOnce(a + b) == StepOnce(a[idx..] + b)
  {
    var x, y := a + b, a[idx..] + b;
    assert x[idx..] == y;
    assert FindHeader(x) == idx by {
      FindHeaderExtends(a, b);
    }
    assert FindHeader(y) == 0 by {
      FindHeaderIs(y, 0);
    }
    assert y[0..] == y;
    StepOnceAtHeader(x, idx);
    StepOnceAtHeader(y, 0);
  }

  /** The same pass with `b` appended to what it leaves behind. */
  function Extended(step: Step, b: seq<byte>): Step
  {
    match step
    case Wait(kept) => Wait(kept + b)
    case Skip(rest) => Skip(rest + b)
    case Emit(f, rest) => Emit(f, rest + b)
  }

  /** A complete frame at the head of `w` is handled the same way when more
      bytes follow it. */
  lemma StepAtExtends(w: seq<byte>, b: seq<byte>)
    requires HeaderAt(w, 0)
    requires !(|w| < MinBuffered || |w| < FrameLength(w))
    ensures HeaderAt(w + b, 0)
    ensures !StepAt(w).Wait? && StepAt(w + b) == Extended(StepAt(w), b)
  {
    var total := FrameLength(w);
    assert FrameLength(w + b) == total;
    assert (w + b)[total..] == w[total..] + b;
    assert (w + b)[2..total - 1] == w[2..total - 1];
    assert (w + b)[5..total - 1] == w[5..total - 1];
  }

  /** A frame complete in `a` is dropped or yielded the same way when more
      bytes follow; the bytes after it are followed by `b`. */
  lemma StepExtendsComplete(a: seq<byte>, b: seq<byte>, idx: int)
    requires idx == FindHeader(a) && idx >= 0
    requires !(|a[idx..]| < MinBuffered || |a[idx..]| < FrameLength(a[idx..]))
    ensures !StepOnce(a).Wait? && StepOnce(a + b) == Extended(StepOnce(a), b)
  {
    var w := a[idx..];
    assert FindHeader(a + b) == idx by {
      FindHeaderExtends(a, b);
    }
    assert (a + b)[idx..] == w + b;
    StepAtExtends(w, b);
    StepOnceAtHeader(a, idx);
    StepOnceAtHeader(a + b, idx);
  }

  /** How one pass over `a + b` relates to the pass over `a`: a frame
      complete in `a` is handled the same way, and a pass that waits on `a`
      gives way to a pass over the kept bytes followed by `b`. */
  lemma StepExtends(a: seq<byte>, b: seq<byte>)
    ensures StepOnce(a).Wait? ==> StepOnce(a + b) == StepOnce(StepOnce(a).kept + b)
    ensures !StepOnce(a).Wait? ==> StepOnce(a + b) == Extended(StepOnce(a), b)
  {
    var idx := FindHeader(a);
    if a == [] {
      assert a + b == b;
    } else if idx == -1 {
      StepExtendsWithoutHeader(a, b);
    } else {
      StepOnceAtHeader(a, idx);
      if |a[idx..]| < MinBuffered || |a[idx..]| < FrameLength(a[idx..]) {
        StepExtendsWaiting(a, b, idx);
      } else {
        StepExtendsComplete(a, b, idx);
      }
    }
  }

  /** The frames do not depend on how the stream is cut into `recv`
      chunks: draining `a` and then the kept bytes followed by `b` yields
      exactly what draining `a + b` at once does, and leaves the same
      buffer. */
  lemma {:induction false} DrainChunked(a: seq<byte>, b: seq<byte>)
    ensures var first := Drain(a);
      var second := Drain(first.rest + b);
      Drain(a + b) == Drained(first.frames + second.frames, second.rest)
    decreases |a|
  {
    var step := StepOnce(a);
    StepExtends(a, b);
    DrainAfterStep(a, step);
    DrainAfterStep(a + b, StepOnce(a + b));
    match step
    case Wait(kept) =>
      DrainBySteps(a + b, kept + b);
      NoFramesBefore(Drain(kept + b).frames);
    case Skip(rest) =>
      DrainChunked(rest, b);
    case Emit(f, rest) =>
      DrainChunked(rest, b);
      var first := Drain(rest);
      var second := Drain(first.rest + b);
      FrameBefore(f, first.frames, second.frames);
  }

  /** The wire encoding of a frame with an explicit checksum byte. */
  function EncodeWith(typ: byte, payload: seq<byte>, chk: byte): seq<byte>
    requires |payload| < 65536
  {
    [HeaderFirst, HeaderSecond, typ, |payload| / 256, |payload| % 256] + payload + [chk]
  }

  /** The checksum a sender computes: XOR of type, length bytes, payload. */
  function FrameChecksum(typ: byte, payload: seq<byte>): byte
    requires |payload| < 65536
  {
    Xor([typ, |payload| / 256, |payload| % 256] + payload)
  }

  /** A well-formed frame on the wire. */
  function Encode(typ: byte, payload: seq<byte>): seq<byte>
    requires |payload| < 65536
  {
    EncodeWith(typ, payload, FrameChecksum(typ, payload))
  }

  /** One pass over an encoded frame followed by anything consumes exactly
      that frame and checks exactly its checksum byte. */
  lemma StepOverEncoded(typ: byte, payload: seq<byte>, chk: byte, rest: seq<byte>)
    requires |payload| < 65536
    ensures StepOnce(EncodeWith(typ, payload, chk) + rest)
         == if chk == FrameChecksum(typ, payload) then Emit(Frame(typ, payload), rest)
            else Skip(rest)
  {
    var b := EncodeWith(typ, payload, chk) + rest;
    FindHeaderIs(b, 0);
    assert b[0..] == b;
    var total := FrameLength(b);
    assert total == 6 + |payload|;
    assert b[2..total - 1] == [typ, |payload| / 256, |payload| % 256] + payload;
    assert b[5..total - 1] == payload;
    assert b[total..] == rest;
  }

  /** Round trip: an encoded frame followed by `rest` yields exactly that
      frame, then whatever `rest` yields, and the decoder goes on working
      on `rest`. */
  lemma DecodeEncoded(typ: byte, payload: seq<byte>, rest: seq<byte>)
    requires |payload| < 65536
    ensures Drain(Encode(typ, payload) + rest)
         == Drained([Frame(typ, payload)] + Drain(rest).frames, Drain(rest).rest)
  {
    StepOverEncoded(typ, payload, FrameChecksum(typ, payload), rest);
  }

  /** A frame whose trailing byte is not its checksum is dropped whole,
      declared length and all, and nothing inside it is rescanned. */
  lemma DropsCorrupted(typ: byte, payload: seq<byte>, chk: byte, rest: seq<byte>)
    requires |payload| < 65536
    requires chk != FrameChecksum(typ, payload)
    ensures Drain(EncodeWith(typ, payload, chk) + rest) == Drain(rest)
  {
    StepOverEncoded(typ, payload, chk, rest);
  }

  /** Resynchronisation: a valid frame right after a corrupted one is still
      yielded, and it is the first frame yielded. */
  lemma ResyncAfterCorrupted(typ: byte, payload: seq<byte>, chk: byte,
                             typ2: byte, payload2: seq<byte>, rest: seq<byte>)
    requires |payload| < 65536 && |payload2| < 65536
    requires chk != FrameChecksum(typ, payload)
    ensures Drain(EncodeWith(typ, payload, chk) + Encode(typ2, payload2) + rest).frames
         == [Frame(typ2, payload2)] + Drain(rest).frames
  {
    var bad := EncodeWith(typ, payload, chk);
    var good := Encode(typ2, payload2);
    assert bad + good + rest == bad + (good + rest);
    DropsCorrupted(typ, payload, chk, good + rest);
    DecodeEncoded(typ2, payload2, rest);
  }

  /** With no header buffered, exactly the last byte is kept (it may be the
      first half of a header split across two reads). */
  lemma KeepsLastByteWithoutHeader(s: seq<byte>)
    requires !HasHeader(s)
    ensures Drain(s) == Drained([], if |s| > 0 then [s[|s| - 1]] else [])
  {
    FindHeaderIs(s, -1);
  }

  /** A buffer that starts with a header but holds an incomplete frame is
      kept whole: nothing is discarded while waiting. */
  lemma WaitsWithoutDiscarding(s: seq<byte>)
    requires HeaderAt(s, 0)
    requires |s| < MinBuffered || |s| < FrameLength(s)
    ensures Drain(s) == Drained([], s)
  {
    FindHeaderIs(s, 0);
    assert s[0..] == s;
  }

  /** A settled buffer is left as it is: the inner loop breaks at once and
      yields nothing, so skipping it after an empty `recv` changes nothing. */
  lemma SettledIsKept(s: seq<byte>)
    requires Settled(s)
    ensures Drain(s) == Drained([], s)
  {
    if HeaderAt(s, 0) && (|s| < MinBuffered || |s| < FrameLength(s)) {
      WaitsWithoutDiscarding(s);
    } else {
      KeepsLastByteWithoutHeader(s);
    }
  }

  /** One pass of the inner loop of packet_stream, statement by statement
      (app3.py:83-103): the buffer it breaks with, or the frame it drops or
      yields and the buffer it continues with. */
  method ScanOnce(buf: seq<byte>) returns (step: Step)
    ensures step == StepOnce(buf)
  {
    var buffer := buf;
    var idx := FindHeader(buffer);
    if idx < 0 {
      buffer := if |buffer| > 0 then buffer[|buffer| - 1..] else [];
      return Wait(buffer);
    }
    if idx > 0 {
      buffer := buffer[idx..];
    }
    assert buffer == buf[idx..];
    if |buffer| < 6 {
      return Wait(buffer);
    }
    var typ := buffer[2];
    var length := (buffer[3] as int) * 256 + buffer[4] as int;
    var totalLen := 2 + 1 + 2 + length + 1;
    if |buffer| < totalLen {
      return Wait(buffer);
    }
    ghost var whole := buffer;
    var frame := buffer[..totalLen];
    buffer := buffer[totalLen..];
    var payload := frame[5..|frame| - 1];
    var chk := frame[|frame| - 1];
    assert totalLen == FrameLength(whole);
    assert |frame| == totalLen && frame == whole[..totalLen];
    assert frame[2..|frame| - 1] == whole[2..totalLen - 1];
    assert payload == whole[5..totalLen - 1];
    var computed := XorChecksum(frame[2..|frame| - 1]);
    if chk != computed {
      return Skip(buffer);
    }
    return Emit(Frame(typ, payload), buffer);
  }

  /** The decoder state of one connection: `buffer` is the byte buffer of
      packet_stream, which persists from one `recv` to the next. */
  class Decoder {
    var buffer: seq<byte>

    constructor ()
      ensures buffer == []
    {
      buffer := [];
    }

    /** `buffer += chunk` followed by the inner loop; returns the frames
        yielded, in order. */
    method Feed(chunk: seq<byte>) returns (frames: seq<Frame>)
      modifies this
      ensures Drained(frames, buffer) == Drain(old(buffer) + chunk)
      ensures Settled(buffer)
    {
      var buf := buffer + chunk;
      ghost var all := Drain(buf);
      ghost var start := buf;
      frames := [];
      while true
        invariant all == Drained(frames + Drain(buf).frames, Drain(buf).rest)
        decreases |buf|
      {
        var step := ScanOnce(buf);
        DrainAfterStep(buf, step);
        match step
        case Wait(kept) =>
          buf := kept;
          assert frames + [] == frames;
          break;
        case Skip(rest) =>
          buf := rest;
        case Emit(frame, rest) =>
          AppendFrame(frames, frame, Drain(rest).frames);
          frames := frames + [frame];
          buf := rest;
      }
      buffer := buf;
      assert Settled(buffer) by {
        DrainSettles(start);
      }
    }
  }
}
