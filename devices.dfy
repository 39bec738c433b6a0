/** The `/api/devices` view of the BLE server (ble_scales_app.py,
    api_devices): one entry per key of `latest`, sorted by id, and the
    number of entries. */
module Devices {
  import opened Notify

  /** Python's `<` on strings: lexicographic by code point, a proper
      prefix first. */
  predicate StrLess(a: string, b: string)
    ensures |a| < |b| && a == b[..|a|] ==> StrLess(a, b)
    ensures StrLess(a, b) ==> a != b
    decreases |a|
  {
    if a == [] then b != []
    else if b == [] then false
    else if a[0] != b[0] then a[0] < b[0]
    else StrLess(a[1..], b[1..])
  }

  lemma {:induction false} StrLessIrreflexive(a: string)
    ensures !StrLess(a, a)
    decreases |a|
  {
    if a != [] {
      StrLessIrreflexive(a[1..]);
    }
  }

  /** No two strings are each less than the other. */
  lemma StrLessAsymmetric(a: string, b: string)
    ensures !(StrLess(a, b) && StrLess(b, a))
  {
    if StrLess(a, b) && StrLess(b, a) {
      StrLessTransitive(a, b, a);
      StrLessIrreflexive(a);
    }
  }

  lemma {:induction false} StrLessTransitive(a: string, b: string, c: string)
    requires StrLess(a, b) && StrLess(b, c)
    ensures StrLess(a, c)
    decreases |a|
  {
    if a != [] && a[0] == b[0] && b[0] == c[0] {
      StrLessTransitive(a[1..], b[1..], c[1..]);
    }
  }

  /** Any two different strings are ordered one way or the other. */
  lemma {:induction false} StrLessTotal(a: string, b: string)
    requires a != b
    ensures StrLess(a, b) || StrLess(b, a)
    decreases |a|
  {
    if a != [] && b != [] && a[0] == b[0] {
      assert a == [a[0]] + a[1..] && b == [b[0]] + b[1..];
      StrLessTotal(a[1..], b[1..]);
    }
  }

  /** One element of the `devices` array. */
  datatype Entry = Entry(id: string, name: string, grams: real, ts: real, address: string)

  /** The element built for `dev_id, d`; every stored reading carries
      name, ts and address, so the `.get` defaults are never used. */
  function EntryOf(id: string, d: DeviceReading): (e: Entry)
    ensures e.id == id
    ensures e.name == d.name && e.grams == d.grams && e.ts == d.ts && e.address == d.address
  {
    Entry(id, d.name, d.grams, d.ts, d.address)
  }

  /** `k` is the least of `keys`. */
  predicate IsLeast(keys: set<string>, k: string)
  {
    k in keys && forall j :: j in keys && j != k ==> StrLess(k, j)
  }

  /** A non-empty set of keys has a least one. */
  lemma {:induction false} LeastExists(keys: set<string>)
    requires keys != {}
    ensures exists k :: IsLeast(keys, k)
    decreases keys
  {
    var x :| x in keys;
    var others := keys - {x};
    if others == {} {
      assert keys == {x};
      assert IsLeast(keys, x);
    } else {
      LeastExists(others);
      var m :| IsLeast(others, m);
      if StrLess(x, m) {
        LessThanAll(x, m, others);
        assert IsLeast(keys, x);
      } else {
        StrLessTotal(x, m);
        assert IsLeast(keys, m);
      }
    }
  }

  /** The smallest key of a non-empty set of keys. */
  function MinKey(keys: set<string>): (k: string)
    requires keys != {}
    ensures IsLeast(keys, k)
  {
    LeastExists(keys);
    LeastUnique(keys);
    var k :| IsLeast(keys, k);
    k
  }

  lemma LeastUnique(keys: set<string>)
    ensures forall a, b :: IsLeast(keys, a) && IsLeast(keys, b) ==> a == b
  {
    forall a, b | IsLeast(keys, a) && IsLeast(keys, b)
      ensures a == b
    {
      StrLessAsymmetric(a, b);
    }
  }

  lemma LessThanAll(x: string, m: string, others: set<string>)
    requires StrLess(x, m)
    requires forall j :: j in others && j != m ==> StrLess(m, j)
    ensures forall j :: j in others ==> StrLess(x, j)
  {
    forall j | j in others && j != m
      ensures StrLess(x, j)
    {
      StrLessTransitive(x, m, j);
    }
  }

  /** Sorted ascending by id, with no id twice. */
  predicate SortedById(es: seq<Entry>)
  {
    forall i, j :: 0 <= i < j < |es| ==> StrLess(es[i].id, es[j].id)
  }

  /** What the `devices` array must be for a table: sorted by id, each
      entry the stored reading of its id, and every device present. */
  predicate IsSnapshot(latest: map<string, DeviceReading>, es: seq<Entry>)
  {
    && SortedById(es)
    && (forall i :: 0 <= i < |es| ==> es[i].id in latest && es[i] == EntryOf(es[i].id, latest[es[i].id]))
    && (forall k :: k in latest ==> exists i :: 0 <= i < |es| && es[i].id == k)
  }

  /** The entry of the least key followed by a snapshot of the other keys
      is a snapshot. */
  lemma ConsSnapshot(latest: map<string, DeviceReading>, k: string, tail: seq<Entry>)
    requires k in latest
    requires forall j :: j in latest && j != k ==> StrLess(k, j)
    requires IsSnapshot(latest - {k}, tail)
    ensures IsSnapshot(latest, [EntryOf(k, latest[k])] + tail)
  {
    var rest := latest - {k};
    forall i | 0 <= i < |tail|
      ensures StrLess(k, tail[i].id)
    {
      assert tail[i].id in rest;
    }
    ConsSorted(EntryOf(k, latest[k]), tail);
    ConsEntries(latest, k, tail);
    ConsCovers(latest, k, tail);
  }

  lemma ConsSorted(e: Entry, tail: seq<Entry>)
    requires SortedById(tail)
    requires forall i :: 0 <= i < |tail| ==> StrLess(e.id, tail[i].id)
    ensures SortedById([e] + tail)
  {
    var es := [e] + tail;
    assert forall j :: 1 <= j < |es| ==> es[j] == tail[j - 1];
  }

  lemma ConsEntries(latest: map<string, DeviceReading>, k: string, tail: seq<Entry>)
    requires k in latest
    requires forall i :: 0 <= i < |tail| ==>
      tail[i].id in latest - {k} && tail[i] == EntryOf(tail[i].id, (latest - {k})[tail[i].id])
    ensures var es := [EntryOf(k, latest[k])] + tail;
      forall i :: 0 <= i < |es| ==> es[i].id in latest && es[i] == EntryOf(es[i].id, latest[es[i].id])
  {
    var es := [EntryOf(k, latest[k])] + tail;
    assert forall j :: 1 <= j < |es| ==> es[j] == tail[j - 1];
  }

  lemma ConsCovers(latest: map<string, DeviceReading>, k: string, tail: seq<Entry>)
    requires k in latest
    requires forall j :: j in latest - {k} ==> exists i :: 0 <= i < |tail| && tail[i].id == j
    ensures var es := [EntryOf(k, latest[k])] + tail;
      forall j :: j in latest ==> exists i :: 0 <= i < |es| && es[i].id == j
  {
    var es := [EntryOf(k, latest[k])] + tail;
    forall j | j in latest
      ensures exists i :: 0 <= i < |es| && es[i].id == j
    {
      if j != k {
        assert j in latest - {k};
        var i :| 0 <= i < |tail| && tail[i].id == j;
        assert es[i + 1].id == j;
      } else {
        assert es[0].id == j;
      }
    }
  }

  /** `arr` after `arr.sort(key=lambda x: x["id"])`: the entries of
      `latest` in ascending id order. */
  function Snapshot(latest: map<string, DeviceReading>): (es: seq<Entry>)
    ensures |es| == |latest.Keys|
    ensures IsSnapshot(latest, es)
    decreases latest.Keys
  {
    if latest.Keys == {} then []
    else
      var k := MinKey(latest.Keys);
      var rest := latest - {k};
      assert rest.Keys == latest.Keys - {k};
      var tail := Snapshot(rest);
      ConsSnapshot(latest, k, tail);
      [EntryOf(k, latest[k])] + tail
  }

  /** The JSON body: the sorted entries and their count. */
  datatype Response = Response(devices: seq<Entry>, count: nat)

  function ApiDevices(latest: map<string, DeviceReading>): (r: Response)
    ensures r.count == |r.devices| == |latest.Keys|
    ensures IsSnapshot(latest, r.devices)
  {
    var es := Snapshot(latest);
    Response(es, |es|)
  }

  /** Exactly one entry per device: an id appears at one position only,
      and that entry carries the device's stored reading. */
  lemma OneEntryPerDevice(latest: map<string, DeviceReading>, k: string)
    requires k in latest
    ensures var es := ApiDevices(latest).devices;
      exists i :: 0 <= i < |es| && es[i] == EntryOf(k, latest[k])
        && forall j :: 0 <= j < |es| && j != i ==> es[j].id != k
  {
    var es := ApiDevices(latest).devices;
    var i :| 0 <= i < |es| && es[i].id == k;
    forall j | 0 <= j < |es| && j != i
      ensures es[j].id != k
    {
      StrLessIrreflexive(k);
    }
  }

  /** Taking the first entry off a snapshot leaves a snapshot of the other
      devices, and the first entry has the least id. */
  lemma SnapshotTail(latest: map<string, DeviceReading>, es: seq<Entry>)
    requires IsSnapshot(latest, es) && es != []
    ensures es[0].id in latest
    ensures forall k :: k in latest && k != es[0].id ==> StrLess(es[0].id, k)
    ensures IsSnapshot(latest - {es[0].id}, es[1..])
  {
    var a := es[0].id;
    var tail := es[1..];
    forall k | k in latest && k != a
      ensures StrLess(a, k)
    {
      var i :| 0 <= i < |es| && es[i].id == k;
    }
    forall i | 0 <= i < |tail|
      ensures tail[i].id != a
    {
      assert tail[i] == es[i + 1];
      StrLessIrreflexive(a);
    }
    forall k | k in latest - {a}
      ensures exists i :: 0 <= i < |tail| && tail[i].id == k
    {
      var i :| 0 <= i < |es| && es[i].id == k;
      assert tail[i - 1] == es[i];
    }
  }

  /** The snapshot is the only list with these properties: the response
      depends on the table's contents alone, not on the order in which its
      keys were inserted. */
  lemma {:induction false} SnapshotUnique(latest: map<string, DeviceReading>, es: seq<Entry>, fs: seq<Entry>)
    requires IsSnapshot(latest, es) && IsSnapshot(latest, fs)
    ensures es == fs
    decreases latest.Keys
  {
    SnapshotEmpty(latest, es);
    SnapshotEmpty(latest, fs);
    if es != [] {
      SnapshotTail(latest, es);
      SnapshotTail(latest, fs);
      var a := es[0].id;
      StrLessAsymmetric(a, fs[0].id);
      assert fs[0] == es[0];
      SnapshotUnique(latest - {a}, es[1..], fs[1..]);
      assert es == [es[0]] + es[1..] && fs == [fs[0]] + fs[1..];
    }
  }

  /** A snapshot is empty exactly when the table is. */
  lemma SnapshotEmpty(latest: map<string, DeviceReading>, es: seq<Entry>)
    requires IsSnapshot(latest, es)
    ensures es == [] <==> latest.Keys == {}
  {
    if latest.Keys != {} {
      var k :| k in latest;
    }
    if es != [] {
      assert es[0].id in latest.Keys;
    }
  }
}
