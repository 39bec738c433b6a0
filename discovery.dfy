/** The device bookkeeping of the BLE manager (ble_scales_app.py,
    ble_manager): each scan round looks at the advertisements found, and
    every advertisement that matches the configured name prefix or service
    UUID starts one session for its address unless that address already
    has one. Sessions are tokens here: the address and session name that
    `handle_device` is started with. */
module Discovery {
  import opened Common

  /** NAME_PREFIX when the environment does not set it. */
  const NamePrefix: string := "ESP-SCALE-01"

  /** ASCII `str.lower` on one character. */
  function LowerChar(c: char): (l: char)
    ensures 'A' <= c <= 'Z' ==> l as int == c as int + 32
    ensures !('A' <= c <= 'Z') ==> l == c
  {
    if 'A' <= c <= 'Z' then (c as int + 32) as char else c
  }

  /** ASCII `str.lower`. */
  function Lower(s: string): (r: string)
    ensures |r| == |s|
    ensures forall i :: 0 <= i < |s| ==> r[i] == LowerChar(s[i])
  {
    if s == [] then [] else [LowerChar(s[0])] + Lower(s[1..])
  }

  /** Lowering twice is lowering once. */
  lemma LowerIdempotent(s: string)
    ensures Lower(Lower(s)) == Lower(s)
  {
    assert forall i :: 0 <= i < |s| ==> LowerChar(LowerChar(s[i])) == LowerChar(s[i]);
  }

  /** The UUID matched against: the default SERVICE_UUID
      `6E400001-B5A3-F393-E0A9-E50E24DCCA9E` after `.lower()`. */
  const TargetUuid: string := "6e400001-b5a3-f393-e0a9-e50e24dcca9e"

  /** `str.startswith`. */
  predicate StartsWith(s: string, prefix: string)
    ensures StartsWith(s, prefix) <==>
      |prefix| <= |s| && forall i :: 0 <= i < |prefix| ==> s[i] == prefix[i]
  {
    |prefix| <= |s| && s[..|prefix|] == prefix
  }

  /** One advertisement found by a scan: the device address, its name if it
      has one, and the advertised service UUIDs (none when the metadata has
      no list). */
  datatype Advert = Advert(address: string, name: Option<string>, uuids: seq<string>)

  /** `d.name or ""`. */
  function NameOf(d: Advert): (n: string)
    ensures d.name.Some? ==> n == d.name.value
    ensures d.name.None? ==> n == []
  {
    if d.name.Some? then d.name.value else ""
  }

  /** `[str(u).lower() for u in adv]`. */
  function LowerAll(uuids: seq<string>): (r: seq<string>)
    ensures |r| == |uuids|
    ensures forall i :: 0 <= i < |r| ==> r[i] == Lower(uuids[i])
  {
    if uuids == [] then [] else [Lower(uuids[0])] + LowerAll(uuids[1..])
  }

  /** `match_name or match_uuid`: the name starts with the prefix (case
      matters), or some advertised UUID equals the target UUID once
      lowered (case does not matter). */
  predicate Matches(d: Advert)
    ensures StartsWith(NameOf(d), NamePrefix) ==> Matches(d)
    ensures d.uuids == [] ==> (Matches(d) <==> StartsWith(NameOf(d), NamePrefix))
  {
    StartsWith(NameOf(d), NamePrefix) || TargetUuid in LowerAll(d.uuids)
  }

  /** The match stated per UUID: an advert matches iff its name carries
      the prefix or one of its UUIDs is the target UUID in any case. */
  lemma MatchesIff(d: Advert)
    ensures Matches(d) <==>
      StartsWith(NameOf(d), NamePrefix)
      || exists i :: 0 <= i < |d.uuids| && Lower(d.uuids[i]) == TargetUuid
  {
    var l := LowerAll(d.uuids);
    if TargetUuid in l {
      var i :| 0 <= i < |l| && l[i] == TargetUuid;
      assert Lower(d.uuids[i]) == TargetUuid;
    }
  }

  /** A nameless advert matches only through its UUIDs. */
  lemma NamelessNeedsUuid(d: Advert)
    requires d.name.None? || d.name.value == ""
    ensures Matches(d) <==> TargetUuid in LowerAll(d.uuids)
  {
  }

  /** The case of the advertised UUIDs does not matter: lowering them
      first does not change whether an advert matches. */
  lemma UuidCaseIgnored(d: Advert)
    ensures Matches(d) <==> Matches(d.(uuids := LowerAll(d.uuids)))
  {
    var l := LowerAll(d.uuids);
    forall i | 0 <= i < |l|
      ensures LowerAll(l)[i] == l[i]
    {
      LowerIdempotent(d.uuids[i]);
    }
    assert LowerAll(l) == l;
  }

  /** The name `handle_device` is started with: `name or d.address`. */
  function SessionName(d: Advert): (n: string)
    ensures NameOf(d) != [] ==> n == NameOf(d)
    ensures NameOf(d) == [] ==> n == d.address
  {
    var name := NameOf(d);
    if name != [] then name else d.address
  }

  /** The token standing for `asyncio.create_task(handle_device(...))`. */
  datatype Session = Session(address: string, name: string)

  function SessionOf(d: Advert): (s: Session)
    ensures s.address == d.address
    ensures s.name == (if NameOf(d) != [] then NameOf(d) else d.address)
  {
    Session(d.address, SessionName(d))
  }

  /** The `tasks` dictionary after handling `devices` in order: every
      session already started is kept as it is. */
  function ScanAll(tasks: map<string, Session>, devices: seq<Advert>): (r: map<string, Session>)
    ensures forall a :: a in tasks ==> a in r && r[a] == tasks[a]
    decreases |devices|
  {
    if devices == [] then tasks
    else
      var d := devices[0];
      var next := if Matches(d) && d.address !in tasks then tasks[d.address := SessionOf(d)] else tasks;
      ScanAll(next, devices[1..])
  }

  /** The addresses of the matching adverts among `devices`. */
  function MatchedAddresses(devices: seq<Advert>): (r: set<string>)
    ensures forall i :: 0 <= i < |devices| && Matches(devices[i]) ==> devices[i].address in r
    ensures forall a :: a in r ==> exists i :: 0 <= i < |devices| && Matches(devices[i]) && devices[i].address == a
  {
    set i | 0 <= i < |devices| && Matches(devices[i]) :: devices[i].address
  }

  /** A scan only adds: every existing session is kept as it was, and the
      new addresses are exactly the matched ones that had no session. */
  lemma {:induction false} ScanGrows(tasks: map<string, Session>, devices: seq<Advert>)
    ensures ScanAll(tasks, devices).Keys == tasks.Keys + MatchedAddresses(devices)
    ensures forall a :: a in tasks ==> ScanAll(tasks, devices)[a] == tasks[a]
    decreases |devices|
  {
    if devices != [] {
      var d := devices[0];
      var next := if Matches(d) && d.address !in tasks then tasks[d.address := SessionOf(d)] else tasks;
      ScanGrows(next, devices[1..]);
      MatchedSplit(devices);
      assert next.Keys == tasks.Keys + (if Matches(d) then {d.address} else {});
    }
  }

  lemma MatchedSplit(devices: seq<Advert>)
    requires devices != []
    ensures MatchedAddresses(devices)
         == (if Matches(devices[0]) then {devices[0].address} else {}) + MatchedAddresses(devices[1..])
  {
    var tail := devices[1..];
    forall a | a in MatchedAddresses(tail)
      ensures a in MatchedAddresses(devices)
    {
      var i :| 0 <= i < |tail| && Matches(tail[i]) && tail[i].address == a;
      assert devices[i + 1] == tail[i];
    }
    forall a | a in MatchedAddresses(devices)
      ensures a in (if Matches(devices[0]) then {devices[0].address} else {}) + MatchedAddresses(tail)
    {
      var i :| 0 <= i < |devices| && Matches(devices[i]) && devices[i].address == a;
      if i > 0 {
        assert tail[i - 1] == devices[i];
      }
    }
  }

  /** A new session belongs to the first matching advert for its address:
      later adverts for the same address do not replace it. */
  lemma {:induction false} FirstMatchWins(tasks: map<string, Session>, devices: seq<Advert>, i: nat)
    requires i < |devices| && Matches(devices[i]) && devices[i].address !in tasks
    requires forall j :: 0 <= j < i ==> !(Matches(devices[j]) && devices[j].address == devices[i].address)
    ensures devices[i].address in ScanAll(tasks, devices)
    ensures ScanAll(tasks, devices)[devices[i].address] == SessionOf(devices[i])
    decreases i
  {
    var d, tail := devices[0], devices[1..];
    var next := if Matches(d) && d.address !in tasks then tasks[d.address := SessionOf(d)] else tasks;
    if i == 0 {
      assert next[d.address] == SessionOf(d);
      ScanKeeps(next, tail, d.address);
    } else {
      assert tail[i - 1] == devices[i];
      NoEarlierMatch(devices, i);
      FirstMatchWins(next, tail, i - 1);
    }
  }

  /** A scan keeps the session of an address that already has one. */
  lemma {:induction false} ScanKeeps(tasks: map<string, Session>, devices: seq<Advert>, a: string)
    requires a in tasks
    ensures a in ScanAll(tasks, devices) && ScanAll(tasks, devices)[a] == tasks[a]
    decreases |devices|
  {
    if devices != [] {
      var d := devices[0];
      var next := if Matches(d) && d.address !in tasks then tasks[d.address := SessionOf(d)] else tasks;
      ScanKeeps(next, devices[1..], a);
    }
  }

  lemma NoEarlierMatch(devices: seq<Advert>, i: nat)
    requires 0 < i < |devices|
    requires forall j :: 0 <= j < i ==> !(Matches(devices[j]) && devices[j].address == devices[i].address)
    ensures forall j :: 0 <= j < i - 1 ==> !(Matches(devices[1..][j]) && devices[1..][j].address == devices[1..][i - 1].address)
  {
    forall j | 0 <= j < i - 1
      ensures !(Matches(devices[1..][j]) && devices[1..][j].address == devices[1..][i - 1].address)
    {
      assert devices[1..][j] == devices[j + 1];
    }
  }

  /** Scanning the same adverts again starts nothing new. */
  lemma ScanIdempotent(tasks: map<string, Session>, devices: seq<Advert>)
    ensures ScanAll(ScanAll(tasks, devices), devices) == ScanAll(tasks, devices)
  {
    var once := ScanAll(tasks, devices);
    ScanGrows(tasks, devices);
    ScanGrows(once, devices);
    assert ScanAll(once, devices).Keys == once.Keys;
  }

  /** The manager's `tasks` dictionary, address to session. */
  class Manager {
    var tasks: map<string, Session>

    constructor ()
      ensures tasks == map[]
    {
      tasks := map[];
    }

    /** One scan round: `for d in devices`, start a session for each
        matching advert whose address has none yet. A failed discovery is
        a round with no adverts. */
    method Scan(devices: seq<Advert>)
      modifies this
      ensures tasks == ScanAll(old(tasks), devices)
    {
      var i := 0;
      while i < |devices|
        invariant 0 <= i <= |devices|
        invariant ScanAll(old(tasks), devices) == ScanAll(tasks, devices[i..])
      {
        var d := devices[i];
        assert devices[i..][1..] == devices[i + 1..];
        if Matches(d) {
          if d.address !in tasks {
            tasks := tasks[d.address := SessionOf(d)];
          }
        }
        i := i + 1;
      }
    }
  }
}
