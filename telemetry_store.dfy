/** The single-device telemetry store of app3.py: the latest reading, a
    bounded history (`deque(maxlen=HISTORY_SIZE)`) and the tare offset, with
    the record step of the reader thread and the three API handlers. Each
    method is one critical section under `data_lock`. */
module TelemetryStore {
  import opened Common

  /** One stored reading: the local timestamp string, the counter and the
      raw weight in grams. */
  datatype Item = Item(timestamp: string, counter: nat, weightG: int)

  /** What a bounded deque holds after `s` was appended to it in order,
      starting empty: the newest `cap` elements, oldest first. */
  function Window<T>(s: seq<T>, cap: nat): (r: seq<T>)
    ensures |r| == Min(|s|, cap)
    ensures forall i :: 0 <= i < |r| ==> r[i] == s[|s| - |r| + i]
  {
    if |s| <= cap then s else s[|s| - cap..]
  }

  /** Appending to a full deque evicts the oldest element: a window of a
      window is the window of the whole sequence. */
  lemma WindowAppend<T>(s: seq<T>, t: seq<T>, cap: nat)
    ensures Window(Window(s, cap) + t, cap) == Window(s + t, cap)
  {
    if |s| > cap {
      assert Window(s, cap) + t == (s + t)[|s| - cap..];
      WindowOfSuffix(s + t, |s| - cap, cap);
    }
  }

  /** Dropping elements older than the newest `cap` does not change the
      window. */
  lemma WindowOfSuffix<T>(x: seq<T>, k: nat, cap: nat)
    requires k <= |x| && cap <= |x| - k
    ensures Window(x[k..], cap) == Window(x, cap)
  {
    assert x[k..][|x| - k - cap..] == x[|x| - cap..];
  }

  /** Python's `s[start:]` for any integer `start`: a negative start counts
      from the end, and both ends are clamped. */
  function PySliceFrom<T>(s: seq<T>, start: int): (r: seq<T>)
    ensures |r| <= |s|
    ensures forall i :: 0 <= i < |r| ==> r[i] == s[|s| - |r| + i]
  {
    var i := if start < 0 then (if start + |s| < 0 then 0 else start + |s|)
             else Min(start, |s|);
    s[i..]
  }

  /** `list(history)[-n:]` in all three cases: the newest `n` items when
      `n` is positive, everything when `n` is zero (since `-0 == 0`), and
      all but the oldest `-n` when `n` is negative. */
  lemma HistorySlice<T>(s: seq<T>, n: int)
    ensures n > 0 ==> |PySliceFrom(s, -n)| == Min(n, |s|)
    ensures n == 0 ==> PySliceFrom(s, -n) == s
    ensures n < 0 ==> |PySliceFrom(s, -n)| == |s| - Min(-n, |s|)
  {
  }

  /** The tare-adjusted copy an API handler returns: the same reading,
      its weight reported relative to the offset. */
  function Adjusted(it: Item, offset: int): (r: Item)
    ensures r.timestamp == it.timestamp && r.counter == it.counter
    ensures r.weightG + offset == it.weightG
  {
    it.(weightG := it.weightG - offset)
  }

  function AdjustAll(items: seq<Item>, offset: int): (r: seq<Item>)
    ensures |r| == |items|
    ensures forall i :: 0 <= i < |r| ==> r[i] == Adjusted(items[i], offset)
  {
    if items == [] then []
    else AdjustAll(items[..|items| - 1], offset) + [Adjusted(items[|items| - 1], offset)]
  }

  /** `list(history)[-n:]` with each weight reported relative to the tare
      offset: the newest `n` items when `n` is positive, everything when `n`
      is zero (since `-0 == 0`), all but the oldest `-n` when `n` is
      negative; oldest first in every case. */
  function Recent(s: seq<Item>, n: int, offset: int): (r: seq<Item>)
    ensures n > 0 ==> |r| == Min(n, |s|)
    ensures n == 0 ==> |r| == |s|
    ensures n < 0 ==> |r| == |s| - Min(-n, |s|)
    ensures forall i :: 0 <= i < |r| ==> r[i] == Adjusted(s[|s| - |r| + i], offset)
  {
    var recent := PySliceFrom(s, -n);
    HistorySlice(s, n);
    AdjustAll(recent, offset)
  }

  class Store {
    /** HISTORY_SIZE, the deque's maxlen. */
    const capacity: nat
    var latest: Option<Item>
    var history: seq<Item>
    var tareOffset: int

    /** The history never exceeds its bound and, when not empty, ends with
        the latest reading; without a latest reading it is empty. */
    ghost predicate Valid()
      reads this
    {
      && |history| <= capacity
      && (latest.None? ==> history == [])
      && (history != [] ==> latest == Some(history[|history| - 1]))
    }

    constructor (capacity: nat)
      ensures Valid()
      ensures this.capacity == capacity
      ensures latest == None && history == [] && tareOffset == 0
    {
      this.capacity := capacity;
      latest := None;
      history := [];
      tareOffset := 0;
    }

    /** `latest = item; history.append(item)`. */
    method Record(item: Item)
      requires Valid()
      modifies this
      ensures Valid()
      ensures latest == Some(item)
      ensures history == Window(old(history) + [item], capacity)
      ensures capacity > 0 ==> history[|history| - 1] == item
      ensures tareOffset == old(tareOffset)
    {
      latest := Some(item);
      history := Window(history + [item], capacity);
    }

    /** `api_latest`: nothing before the first reading, otherwise the latest
        reading with its weight reported relative to the tare offset. The
        stored reading itself is not changed. */
    function ApiLatest(): (r: Option<Item>)
      reads this
      ensures r.Some? <==> latest.Some?
      ensures r.Some? ==> r.value.weightG + tareOffset == latest.value.weightG
      ensures r.Some? ==> r.value.timestamp == latest.value.timestamp && r.value.counter == latest.value.counter
    {
      if latest.None? then None else Some(Adjusted(latest.value, tareOffset))
    }

    /** `api_history` with `n` already parsed, over the current history
        and offset. */
    function ApiHistory(n: int): (r: seq<Item>)
      reads this
      ensures n > 0 ==> |r| == Min(n, |history|)
      ensures n == 0 ==> |r| == |history|
      ensures n < 0 ==> |r| == |history| - Min(-n, |history|)
      ensures forall i :: 0 <= i < |r| ==> r[i] == Adjusted(history[|history| - |r| + i], tareOffset)
    {
      Recent(history, n, tareOffset)
    }

    /** `api_tare`: without a reading it fails and keeps the offset;
        otherwise the offset becomes the raw latest weight, so that the
        latest reading is then reported as 0 g. Readings are not touched. */
    method Tare() returns (ok: bool, offset: int)
      requires Valid()
      modifies this
      ensures Valid()
      ensures latest == old(latest) && history == old(history)
      ensures ok <==> latest.Some?
      ensures ok ==> tareOffset == latest.value.weightG
      ensures ok ==> ApiLatest() == Some(latest.value.(weightG := 0))
      ensures !ok ==> tareOffset == old(tareOffset)
      ensures offset == tareOffset
    {
      if latest.None? {
        return false, tareOffset;
      }
      tareOffset := latest.value.weightG;
      return true, tareOffset;
    }
  }

  /** The history after recording `items` one by one into `h`. */
  function RecordEach(h: seq<Item>, items: seq<Item>, cap: nat): seq<Item>
  {
    if items == [] then h
    else Window(RecordEach(h, items[..|items| - 1], cap) + [items[|items| - 1]], cap)
  }

  /** Oldest-first eviction: recording items one at a time into a history
      within its bound keeps the newest `cap` of old and new items together,
      in insertion order. */
  lemma {:induction false} RecordAll(h: seq<Item>, items: seq<Item>, cap: nat)
    requires |h| <= cap
    ensures RecordEach(h, items, cap) == Window(h + items, cap)
    decreases |items|
  {
    if items == [] {
      assert h + items == h;
    } else {
      var init, last := items[..|items| - 1], items[|items| - 1];
      assert items == init + [last];
      RecordAll(h, init, cap);
      WindowAppend(h + init, [last], cap);
      AppendAssociative(h, init, [last]);
    }
  }

  /** With room for three, recording weights 10, 20, 30 and 40 keeps the
      last three, oldest first. */
  lemma EvictsOldest(t: string)
    ensures var items := [Item(t, 1, 10), Item(t, 2, 20), Item(t, 3, 30), Item(t, 4, 40)];
      RecordEach([], items, 3) == items[1..]
  {
    var items := [Item(t, 1, 10), Item(t, 2, 20), Item(t, 3, 30), Item(t, 4, 40)];
    RecordAll([], items, 3);
    assert [] + items == items;
  }
}
