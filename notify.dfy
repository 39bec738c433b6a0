/** The notification handler of a BLE scale session (ble_scales_app.py,
    handle_notify): notification bytes are appended to a buffer, complete
    `\n`-terminated lines are taken off it in order, and every line that
    decodes to a message updates the shared table of latest readings.
    Decoding a line (UTF-8, strip, `json.loads`, the `float` conversions)
    is the parameter `parse`; the clock reading `time.time()` is `now`. */
module Notify {
  import opened Common

  /** The line terminator `b"\n"`. */
  const Newline: byte := 10

  /** A decoded message: its optional `id`, its `grams` and optional `ts`. */
  datatype Msg = Msg(id: Option<string>, grams: real, ts: Option<real>)

  /** What `latest[dev_id]` holds: grams, ts, the session's name and
      address. */
  datatype DeviceReading = DeviceReading(grams: real, ts: real, name: string, address: string)

  /** The index of the first `x` in `s`. */
  function IndexOf(s: seq<byte>, x: byte): (i: nat)
    requires x in s
    ensures i < |s| && s[i] == x
    ensures forall j :: 0 <= j < i ==> s[j] != x
  {
    if s[0] == x then 0 else IndexOf(s[1..], x) + 1
  }

  /** `buffer.partition(b"\n")` on a buffer holding a newline: the bytes
      before the first newline, and the bytes after it. */
  datatype Parted = Parted(line: seq<byte>, rest: seq<byte>)

  function Partition(buf: seq<byte>): (p: Parted)
    requires Newline in buf
    ensures Newline !in p.line
    ensures buf == p.line + [Newline] + p.rest
  {
    var i := IndexOf(buf, Newline);
    assert buf == buf[..i] + [Newline] + buf[i + 1..];
    Parted(buf[..i], buf[i + 1..])
  }

  /** The bytes of `lines`, each followed by a newline. */
  function Joined(lines: seq<seq<byte>>): seq<byte>
  {
    if lines == [] then [] else lines[0] + [Newline] + Joined(lines[1..])
  }

  /** Complete lines taken off a buffer, in order, and what is left. */
  datatype Split = Split(lines: seq<seq<byte>>, rest: seq<byte>)

  predicate NoNewline(s: seq<byte>)
  {
    Newline !in s
  }

  /** What the `while b"\n" in buffer` loop does to a buffer, as a
      function: repeated `partition(b"\n")`. Every line and the rest are
      free of newlines, and no byte is lost, added or reordered. */
  function SplitLines(buf: seq<byte>): (r: Split)
    ensures NoNewline(r.rest)
    ensures forall i :: 0 <= i < |r.lines| ==> NoNewline(r.lines[i])
    ensures Joined(r.lines) + r.rest == buf
    decreases |buf|
  {
    if Newline !in buf then Split([], buf)
    else
      var p := Partition(buf);
      var sub := SplitLines(p.rest);
      var lines := [p.line] + sub.lines;
      assert lines[0] == p.line && lines[1..] == sub.lines;
      assert Joined(lines) == p.line + [Newline] + Joined(sub.lines);
      AppendAssociative(p.line + [Newline], Joined(sub.lines), sub.rest);
      assert forall i :: 1 <= i < |lines| ==> lines[i] == sub.lines[i - 1];
      Split(lines, sub.rest)
  }

  /** Joining lines and splitting them again gives back the same lines:
      a buffer determines its split uniquely. */
  lemma {:induction false} SplitJoined(lines: seq<seq<byte>>, rest: seq<byte>)
    requires forall i :: 0 <= i < |lines| ==> NoNewline(lines[i])
    requires NoNewline(rest)
    ensures SplitLines(Joined(lines) + rest) == Split(lines, rest)
    decreases |lines|
  {
    var buf := Joined(lines) + rest;
    if lines != [] {
      var l, tail := lines[0], Joined(lines[1..]) + rest;
      assert buf == l + [Newline] + tail;
      PartitionUnique(buf, l, tail);
      SplitJoined(lines[1..], rest);
      assert [l] + lines[1..] == lines;
    }
  }

  /** A buffer cut at a newline with no newline before it is partitioned
      there. */
  lemma PartitionUnique(buf: seq<byte>, line: seq<byte>, rest: seq<byte>)
    requires Newline !in line
    requires buf == line + [Newline] + rest
    ensures Newline in buf
    ensures Partition(buf) == Parted(line, rest)
  {
    assert buf[|line|] == Newline;
    var i := IndexOf(buf, Newline);
    assert forall j :: 0 <= j < |line| ==> buf[j] == line[j];
    assert i == |line|;
    assert buf[..i] == line;
    assert buf[i + 1..] == rest;
  }

  lemma {:induction false} JoinedAppend(a: seq<seq<byte>>, b: seq<seq<byte>>)
    ensures Joined(a + b) == Joined(a) + Joined(b)
    decreases |a|
  {
    if a != [] {
      assert (a + b)[1..] == a[1..] + b;
      JoinedAppend(a[1..], b);
    } else {
      assert a + b == b;
    }
  }

  /** Lines do not depend on how the bytes are cut into notifications:
      splitting what is left of `a` followed by `b` continues the split of
      `a`. */
  lemma SplitChunked(a: seq<byte>, b: seq<byte>)
    ensures var first := SplitLines(a);
      var second := SplitLines(first.rest + b);
      SplitLines(a + b) == Split(first.lines + second.lines, second.rest)
  {
    var first := SplitLines(a);
    var second := SplitLines(first.rest + b);
    JoinedAppend(first.lines, second.lines);
    AppendAssociative(Joined(first.lines), Joined(second.lines), second.rest);
    AppendAssociative(Joined(first.lines), first.rest, b);
    var all := first.lines + second.lines;
    forall i | 0 <= i < |all|
      ensures NoNewline(all[i])
    {
      if i >= |first.lines| {
        assert all[i] == second.lines[i - |first.lines|];
      }
    }
    SplitJoined(all, second.rest);
  }

  /** `msg.get("id") or name`: a missing or empty id falls back to the
      session name. */
  function DeviceId(m: Msg, sessionName: string): (id: string)
    ensures m.id.Some? && m.id.value != [] ==> id == m.id.value
    ensures m.id.None? || m.id.value == [] ==> id == sessionName
  {
    if m.id.Some? && m.id.value != [] then m.id.value else sessionName
  }

  /** The entry written for a message: its grams, its `ts` or else the
      clock reading, and the session's name and address. */
  function ReadingOf(m: Msg, name: string, address: string, now: real): (r: DeviceReading)
    ensures r.grams == m.grams
    ensures r.ts == (if m.ts.Some? then m.ts.value else now)
    ensures r.name == name && r.address == address
  {
    DeviceReading(m.grams, if m.ts.Some? then m.ts.value else now, name, address)
  }

  /** The table after handling `lines` in order: a line that parses writes
      its device's entry, a line that does not is skipped. */
  function ApplyLines(latest: map<string, DeviceReading>, lines: seq<seq<byte>>,
                      parse: seq<byte> -> Option<Msg>, name: string, address: string, now: real)
    : (r: map<string, DeviceReading>)
    ensures latest.Keys <= r.Keys
    ensures |r.Keys| <= |latest.Keys| + |lines|
    decreases |lines|
  {
    if lines == [] then latest
    else
      var next := match parse(lines[0])
        case None => latest
        case Some(m) => latest[DeviceId(m, name) := ReadingOf(m, name, address, now)];
      ApplyLines(next, lines[1..], parse, name, address, now)
  }

  /** The ids written by `lines`: those of the lines that parse. */
  function WrittenIds(lines: seq<seq<byte>>, parse: seq<byte> -> Option<Msg>, name: string): set<string>
    decreases |lines|
  {
    if lines == [] then {}
    else
      (match parse(lines[0])
       case None => {}
       case Some(m) => {DeviceId(m, name)})
      + WrittenIds(lines[1..], parse, name)
  }

  /** Handling lines writes exactly the ids of the lines that parse and
      leaves every other entry of the table as it was. */
  lemma {:induction false} ApplyFrame(latest: map<string, DeviceReading>, lines: seq<seq<byte>>,
                                      parse: seq<byte> -> Option<Msg>, name: string, address: string, now: real)
    ensures ApplyLines(latest, lines, parse, name, address, now).Keys
         == latest.Keys + WrittenIds(lines, parse, name)
    ensures forall k :: k in latest && k !in WrittenIds(lines, parse, name) ==>
      ApplyLines(latest, lines, parse, name, address, now)[k] == latest[k]
    decreases |lines|
  {
    if lines != [] {
      var next := match parse(lines[0])
        case None => latest
        case Some(m) => latest[DeviceId(m, name) := ReadingOf(m, name, address, now)];
      ApplyFrame(next, lines[1..], parse, name, address, now);
    }
  }

  /** Handling lines in two batches is handling them all at once. */
  lemma {:induction false} ApplyAppend(latest: map<string, DeviceReading>, a: seq<seq<byte>>, b: seq<seq<byte>>,
                                       parse: seq<byte> -> Option<Msg>, name: string, address: string, now: real)
    ensures ApplyLines(latest, a + b, parse, name, address, now)
         == ApplyLines(ApplyLines(latest, a, parse, name, address, now), b, parse, name, address, now)
    decreases |a|
  {
    if a == [] {
      assert a + b == b;
    } else {
      assert (a + b)[1..] == a[1..] + b;
      var next := match parse(a[0])
        case None => latest
        case Some(m) => latest[DeviceId(m, name) := ReadingOf(m, name, address, now)];
      ApplyAppend(next, a[1..], b, parse, name, address, now);
    }
  }

  /** A line that fails to parse is skipped without a write, and the lines
      after it are handled as if it were absent. */
  lemma SkipsBadLine(latest: map<string, DeviceReading>, before: seq<seq<byte>>, bad: seq<byte>,
                     after: seq<seq<byte>>, parse: seq<byte> -> Option<Msg>, name: string, address: string, now: real)
    requires parse(bad).None?
    ensures ApplyLines(latest, before + [bad] + after, parse, name, address, now)
         == ApplyLines(latest, before + after, parse, name, address, now)
  {
    var mid := ApplyLines(latest, before, parse, name, address, now);
    ApplyAppend(latest, before + [bad], after, parse, name, address, now);
    ApplyAppend(latest, before, [bad], parse, name, address, now);
    ApplyAppend(latest, before, after, parse, name, address, now);
    assert ApplyLines(mid, [bad], parse, name, address, now) == mid;
  }

  /** A line that parses sets its device's entry to its reading, whatever
      earlier lines wrote. */
  lemma LastWriteWins(latest: map<string, DeviceReading>, before: seq<seq<byte>>, line: seq<byte>,
                      parse: seq<byte> -> Option<Msg>, name: string, address: string, now: real)
    requires parse(line).Some?
    ensures var m := parse(line).value;
      var after := ApplyLines(latest, before + [line], parse, name, address, now);
      DeviceId(m, name) in after && after[DeviceId(m, name)] == ReadingOf(m, name, address, now)
  {
    ApplyAppend(latest, before, [line], parse, name, address, now);
  }

  /** Two notifications in a row leave the same buffer and the same table
      as one notification carrying both payloads. */
  lemma TwoNotifications(buf: seq<byte>, a: seq<byte>, b: seq<byte>, latest: map<string, DeviceReading>,
                         parse: seq<byte> -> Option<Msg>, name: string, address: string, now: real)
    ensures var s1 := SplitLines(buf + a);
      var s2 := SplitLines(s1.rest + b);
      var s := SplitLines(buf + (a + b));
      && s2.rest == s.rest
      && ApplyLines(ApplyLines(latest, s1.lines, parse, name, address, now), s2.lines, parse, name, address, now)
         == ApplyLines(latest, s.lines, parse, name, address, now)
  {
    var s1 := SplitLines(buf + a);
    SplitChunked(buf + a, b);
    AppendAssociative(buf, a, b);
    ApplyAppend(latest, s1.lines, SplitLines(s1.rest + b).lines, parse, name, address, now);
  }

  /** The shared `latest` dictionary of the BLE server. */
  class DeviceTable {
    var latest: map<string, DeviceReading>

    constructor ()
      ensures latest == map[]
    {
      latest := map[];
    }
  }

  /** The state `handle_notify` closes over in one session: the device's
      address, the session name (`name or address`) and the byte buffer. */
  class NotifySession {
    const address: string
    const name: string
    var buffer: seq<byte>

    constructor (address: string, name: string)
      ensures this.address == address && this.name == name && buffer == []
    {
      this.address := address;
      this.name := name;
      buffer := [];
    }

    /** `handle_notify(_, data)`: append, then take off and handle every
        complete line. The buffer ends with no newline, and the lines
        handled are exactly those of the old buffer followed by `data`. */
    method HandleNotify(data: seq<byte>, table: DeviceTable, parse: seq<byte> -> Option<Msg>, now: real)
      modifies this, table
      ensures buffer == SplitLines(old(buffer) + data).rest
      ensures NoNewline(buffer)
      ensures table.latest == ApplyLines(old(table.latest), SplitLines(old(buffer) + data).lines,
                                         parse, name, address, now)
    {
      buffer := buffer + data;
      ghost var whole := SplitLines(buffer);
      ghost var done: seq<seq<byte>> := [];
      ghost var start := table.latest;
      while Newline in buffer
        invariant whole == Split(done + SplitLines(buffer).lines, SplitLines(buffer).rest)
        invariant table.latest == ApplyLines(start, done, parse, name, address, now)
        decreases |buffer|
      {
        var p := Partition(buffer);
        ghost var next := done + [p.line];
        ApplyAppend(start, done, [p.line], parse, name, address, now);
        AppendAssociative(done, [p.line], SplitLines(p.rest).lines);
        HandleLine(p.line, table, parse, now);
        buffer := p.rest;
        done := next;
      }
      assert done + [] == done;
    }

    /** The body of the loop for one line: if it decodes, the entry of its
        device becomes this reading; otherwise nothing changes. */
    method HandleLine(line: seq<byte>, table: DeviceTable, parse: seq<byte> -> Option<Msg>, now: real)
      modifies table
      ensures table.latest == ApplyLines(old(table.latest), [line], parse, name, address, now)
    {
      match parse(line)
      case None =>
      case Some(m) =>
        table.latest := table.latest[DeviceId(m, name) := ReadingOf(m, name, address, now)];
    }
  }
}
