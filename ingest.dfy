/** The body of the reader thread's `for typ, payload in packet_stream(sock)`
    loop (app3.py:126-140): telemetry frames whose payload parses become
    stored items, everything else is ignored. The timestamp of each item is
    the clock reading `datetime.now()` gives, passed in. */
module Ingest {
  import opened Common
  import opened FrameDecoder
  import opened Telemetry
  import opened TelemetryStore

  /** The item stored for one frame, if any. */
  function ItemOf(f: Frame, stamp: string): (r: Option<Item>)
    ensures r.Some? <==> f.typ == TypeTelemetry && |f.payload| == PayloadSize
    ensures r.Some? ==> r.value.timestamp == stamp
  {
    if f.typ != TypeTelemetry then None
    else match ParseTelemetry(f.payload)
      case None => None
      case Some(t) => Some(Item(stamp, t.counter, t.weightG))
  }

  /** A stored item carries exactly the counter and weight parsed from the
      frame's payload. */
  lemma StoredAsParsed(f: Frame, stamp: string)
    requires ItemOf(f, stamp).Some?
    ensures var it := ItemOf(f, stamp).value;
      ParseTelemetry(f.payload) == Some(Reading(it.counter, it.weightG))
  {
  }

  /** The items stored for `frames`, in order; `stamps[i]` is the clock
      reading taken when `frames[i]` arrived. */
  function Ingested(frames: seq<Frame>, stamps: seq<string>): (items: seq<Item>)
    requires |stamps| == |frames|
    ensures |items| <= |frames|
  {
    if frames == [] then []
    else
      var n := |frames| - 1;
      var before := Ingested(frames[..n], stamps[..n]);
      match ItemOf(frames[n], stamps[n])
      case None => before
      case Some(it) => before + [it]
  }

  /** Frames of other types, and telemetry frames with a payload of the
      wrong size, store nothing. */
  lemma {:induction false} IgnoresOtherFrames(frames: seq<Frame>, stamps: seq<string>)
    requires |stamps| == |frames|
    requires forall i :: 0 <= i < |frames| ==>
      frames[i].typ != TypeTelemetry || |frames[i].payload| != PayloadSize
    ensures Ingested(frames, stamps) == []
  {
    if frames != [] {
      var n := |frames| - 1;
      IgnoresOtherFrames(frames[..n], stamps[..n]);
    }
  }

  /** End to end: a reading the scale sends as a telemetry frame is the
      first frame decoded, whatever follows it, and is stored exactly. */
  lemma ReadingArrives(r: Reading, stamp: string, rest: seq<byte>)
    requires Representable(r)
    ensures var frames := Drain(Encode(TypeTelemetry, EncodeTelemetry(r)) + rest).frames;
      |frames| > 0 && ItemOf(frames[0], stamp) == Some(Item(stamp, r.counter, r.weightG))
  {
    DecodeEncoded(TypeTelemetry, EncodeTelemetry(r), rest);
    ParseEncoded(r);
  }

  /** The items stored for a prefix grow by the item of the next frame. */
  lemma IngestedStep(frames: seq<Frame>, stamps: seq<string>, i: nat)
    requires |stamps| == |frames| && i < |frames|
    ensures ItemOf(frames[i], stamps[i]).None? ==>
      Ingested(frames[..i + 1], stamps[..i + 1]) == Ingested(frames[..i], stamps[..i])
    ensures ItemOf(frames[i], stamps[i]).Some? ==>
      Ingested(frames[..i + 1], stamps[..i + 1]) == Ingested(frames[..i], stamps[..i]) + [ItemOf(frames[i], stamps[i]).value]
  {
    assert frames[..i + 1][..i] == frames[..i];
    assert stamps[..i + 1][..i] == stamps[..i];
  }

  /** Recording one more item into the window of `h + done`. */
  lemma RecordOne(h: seq<Item>, done: seq<Item>, it: Item, cap: nat)
    ensures Window(Window(h + done, cap) + [it], cap) == Window(h + (done + [it]), cap)
  {
    WindowAppend(h + done, [it], cap);
    AppendAssociative(h, done, [it]);
  }

  /** The latest reading after recording `items` over `latest`. */
  function LatestAfter(latest: Option<Item>, items: seq<Item>): Option<Item>
  {
    if items == [] then latest else Some(items[|items| - 1])
  }

  /** One pass of the `for typ, payload in packet_stream(sock)` body:
      a telemetry frame whose payload parses is recorded, anything else is
      skipped (`continue`). */
  method HandleFrame(store: Store, f: Frame, stamp: string)
    requires store.Valid()
    modifies store
    ensures store.Valid()
    ensures ItemOf(f, stamp).None? ==> store.history == old(store.history) && store.latest == old(store.latest)
    ensures ItemOf(f, stamp).Some? ==>
      store.history == Window(old(store.history) + [ItemOf(f, stamp).value], store.capacity)
      && store.latest == ItemOf(f, stamp)
    ensures store.tareOffset == old(store.tareOffset)
  {
    if f.typ == TypeTelemetry {
      var parsed := ParseTelemetry(f.payload);
      if parsed.None? {
        return;
      }
      store.Record(Item(stamp, parsed.value.counter, parsed.value.weightG));
    }
  }

  /** Feeds decoded frames to the store one by one, recording each
      telemetry reading under its timestamp. */
  method Consume(store: Store, frames: seq<Frame>, stamps: seq<string>)
    requires |stamps| == |frames|
    requires store.Valid()
    modifies store
    ensures store.Valid()
    ensures store.history == Window(old(store.history) + Ingested(frames, stamps), store.capacity)
    ensures store.latest == LatestAfter(old(store.latest), Ingested(frames, stamps))
    ensures store.tareOffset == old(store.tareOffset)
  {
    ghost var h := store.history;
    ghost var done: seq<Item> := [];
    for i := 0 to |frames|
      invariant done == Ingested(frames[..i], stamps[..i])
      invariant store.Valid()
      invariant store.history == Window(h + done, store.capacity)
      invariant store.latest == LatestAfter(old(store.latest), done)
      invariant store.tareOffset == old(store.tareOffset)
    {
      IngestedStep(frames, stamps, i);
      ghost var item := ItemOf(frames[i], stamps[i]);
      if item.Some? {
        RecordOne(h, done, item.value, store.capacity);
      }
      HandleFrame(store, frames[i], stamps[i]);
      if item.Some? {
        done := done + [item.value];
      }
    }
    assert frames[..|frames|] == frames;
    assert stamps[..|stamps|] == stamps;
  }
}
