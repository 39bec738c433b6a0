# Weight-scale servers: a verified model of the ingestion path

This project models, in Dafny, the data path of two small weight-scale
servers. `app3.py` talks to one scale over a Bluetooth serial link.
`ble_scales_app.py` talks to several scales over Bluetooth Low Energy.

`app3.py` reads a byte stream. It cuts the stream into checksummed binary
frames and decodes the 8-byte telemetry payload (counter and weight in
grams). It keeps the latest reading and a bounded history, applies a tare
offset in its read views, and reconnects with exponential backoff.

`ble_scales_app.py` finds scales by name prefix or service UUID and starts
one session per address. Each session splits its notification bytes into
`\n`-terminated lines and records each decoded message in a per-device
table. `/api/devices` returns that table sorted by device id.

Modules, one per file:

| file | module | models |
|---|---|---|
| common.dfy | `Common` | bytes as integers 0..255, `Option`, `Min` |
| checksum.dfy | `Checksum` | `xor_checksum`, with Python's `^` on non-negative integers defined bit by bit |
| frame_decoder.dfy | `FrameDecoder` | the inner loop of `packet_stream`: the `Decoder` class with its `buffer` and `Feed`, the pass method `ScanOnce`, and the specification functions `StepOnce` and `Drain` |
| telemetry.dfy | `Telemetry` | `parse_telemetry` (`"<Ii"`) and the sender's encoding |
| reconnect.dfy | `Reconnect` | the backoff of `reader_thread` |
| telemetry_store.dfy | `TelemetryStore` | `latest`, `history` (`deque(maxlen=HISTORY_SIZE)`), `tare_offset`, the record step, `api_latest`, `api_history` and `api_tare` |
| ingest.dfy | `Ingest` | the body of `for typ, payload in packet_stream(sock)` in `reader_thread` |
| notify.dfy | `Notify` | `handle_notify`: the line buffer and the `latest` table |
| discovery.dfy | `Discovery` | the match predicate and the `tasks` map of `ble_manager` |
| devices.dfy | `Devices` | the `api_devices` snapshot |

Every state-changing part of the source is a method proved against a
specification function:
- `Decoder.Feed` against `Drain`;
- `XorChecksum` against `Xor`;
- `ReaderThread` against `BackoffAfter`;
- `Store.Record` against `Window`;
- `Consume` against `Ingested`;
- `HandleNotify` against `SplitLines` and `ApplyLines`;
- `Manager.Scan` against `ScanAll`.

The properties the source promises are proved as lemmas about those
functions.

Where the model deviates from the source:
- Bytes are integers in 0..255 (`Common.byte`), not bit-vectors. Python's
  `bytes` elements are integers, and the checksum is Python's `^` on
  integers, so this is the faithful form.
- `parse_telemetry` reads the counter as unsigned (`"<Ii"`). A signed
  counter would differ for counters of 2^31 and above. The code is followed.
- Once `connect` succeeds, `packet_stream` swallows every `recv` error,
  including the empty read of a closed peer. The session therefore never
  falls back to the backoff path, and `ReaderThread` stops at the first
  successful connect. There is no transition from streaming back to
  reconnecting, because the code has none.
- Python's `list[-n:]` is modelled exactly: `n == 0` returns the whole
  history, and a negative `n` drops the oldest `-n` items.

## Model

| member | source | states |
|---|---|---|
| Checksum.XorChecksum | app3.py:35-39 | the `chk ^= x` loop followed by `& 0xFF` returns the XOR fold `Xor` of all bytes |
| Checksum.BitXor | app3.py:38 | Python's `^` on non-negative integers, defined bit by bit; it is 0 exactly when the operands are equal |
| Checksum.Xor | app3.py:35-39 | the value `xor_checksum` computes, as a left fold from 0; always a byte, a single byte is its own checksum, and two bytes XOR to 0 exactly when equal |
| Checksum.ChecksumMatches | app3.py:100-101 | the frame check `chk != calc` read as a XOR: a block followed by a byte XORs to 0 exactly when that byte is the block's checksum |
| Checksum.XorOfBytes | app3.py:38-39 | the XOR of two bytes is a byte, so the checksum is always in 0..255 and `& 0xFF` never changes it |
| Checksum.XorAppend | app3.py:35-39 | the checksum of `a + b` is the checksum of `a` XOR the checksum of `b` |
| Checksum.XorAssociative | app3.py:37-38 | the `^` fold may be regrouped freely |
| Checksum.XorWithChecksumIsZero | app3.py:100-101 | a block followed by its own checksum XORs to zero |
| FrameDecoder.FindHeader | app3.py:83 | `buffer.find(HEADER)`: an index where AA 55 starts with none before it, or -1 when there is none anywhere |
| FrameDecoder.FrameLength | app3.py:92-93 | `total_len` is at least the 6 bytes of an empty frame and below 6 + 65536, since the length field has 16 bits |
| FrameDecoder.StepAt | app3.py:89-103 | at a header, a pass waits exactly when fewer than 6 bytes or fewer than `total_len` bytes are buffered, and then keeps the buffer whole; otherwise it consumes exactly the `total_len` bytes of the declared frame and continues with the rest |
| FrameDecoder.StepOnce | app3.py:83-103 | one pass only ever drops a prefix of the buffer, and a pass that does not break strictly shortens it, so the loop ends |
| FrameDecoder.ScanOnce | app3.py:83-103 | the statements of one pass compute exactly the pass `StepOnce` describes |
| FrameDecoder.Drain | app3.py:82-103 | the buffer left by the whole inner loop is a suffix of the buffer it started from |
| FrameDecoder.DrainSettles | app3.py:84-95 | the inner loop breaks in one of two states: no AA 55 and at most one byte kept, or a header at position 0 with fewer than 6 bytes or fewer than `total_len` bytes |
| FrameDecoder.KeepsLastByteWithoutHeader | app3.py:83-86 | with no header buffered, no frame is emitted and exactly the last byte (or nothing) is kept |
| FrameDecoder.WaitsWithoutDiscarding | app3.py:87-95 | a buffer starting at a header with an incomplete frame is kept whole and nothing is emitted |
| FrameDecoder.StepOverEncoded | app3.py:91-103 | an encoded frame followed by anything is consumed exactly, and it is emitted iff its trailing byte equals the XOR of type, length bytes and payload |
| FrameDecoder.DecodeEncoded | app3.py:82-103 | round trip: an encoded frame followed by `rest` emits exactly that `(type, payload)`, then whatever `rest` emits, and leaves what `rest` leaves |
| FrameDecoder.DropsCorrupted | app3.py:96-102 | a frame with a wrong checksum emits nothing and drops exactly its `total_len` bytes, with no rescan inside it |
| FrameDecoder.ResyncAfterCorrupted | app3.py:96-103 | a valid frame right after a corrupted one is still emitted, as the first frame |
| FrameDecoder.DrainChunked | app3.py:71-103 | the frames do not depend on how the stream is cut into `recv` chunks: draining `a` and then the kept bytes plus `b` yields what draining `a + b` yields, and leaves the same buffer |
| FrameDecoder.SettledIsKept | app3.py:75-80 | the buffer the inner loop breaks with is left unchanged by a further run of the loop, which yields nothing; so an empty `recv`, which raises and skips the loop, agrees with draining the buffer plus no bytes |
| FrameDecoder.Decoder.constructor | app3.py:71 | a new connection starts with an empty buffer |
| FrameDecoder.Decoder.Feed | app3.py:77-103 | `buffer += chunk` followed by the inner loop yields exactly `Drain(old buffer + chunk).frames`, keeps its rest, and leaves the buffer settled |
| Telemetry.Le32 | app3.py:109 | four little-endian bytes give an unsigned value below 2^32 |
| Telemetry.ParseTelemetry | app3.py:105-112 | a result iff the payload has exactly 8 bytes; the counter is unsigned 32-bit and the weight signed 32-bit |
| Telemetry.Signed32 | app3.py:109 | the `i` of `"<Ii"`: the signed 32-bit value congruent to the unsigned one modulo 2^32, negative exactly when the top bit is set |
| Telemetry.ParseEncoded | app3.py:109 | every counter below 2^32 and weight in the signed 32-bit range survives `struct.pack("<Ii")` then `parse_telemetry` unchanged |
| Telemetry.EncodeParsed | app3.py:106-110 | every 8-byte payload parses, and re-encoding the result gives the payload back |
| Reconnect.NextBackoff | app3.py:122 | `min(30.0, backoff * 1.5)` never exceeds the cap, and a positive delay grows until it reaches the cap; the same step follows a failed attempt at app3.py:148 |
| Reconnect.BackoffAfter | app3.py:116-122 | the delay after any number of consecutive failures stays within [2, 30] |
| Reconnect.NextBackoffGrows | app3.py:122 | `min(30.0, backoff * 1.5)` never shortens a delay in [2, 30] and never exceeds 30 |
| Reconnect.BackoffMonotone | app3.py:121-122 | the delays across consecutive failures are non-decreasing |
| Reconnect.BackoffSaturates | app3.py:122 | the delay reaches the cap exactly from the eighth consecutive failure on |
| Reconnect.Delays | app3.py:121-122 | the `k` delays slept after `k` failures are the successive backoff values, starting at 2 |
| Reconnect.ReaderThread | app3.py:114-148 | over any sequence of attempt outcomes, the thread sleeps the successive backoff values after each failure until the first successful connect; it then resets the backoff to exactly 2.0 and streams iff some attempt connected; otherwise the backoff is the value after all the failures |
| TelemetryStore.Window | app3.py:29 | a bounded deque holds the newest `min(len, maxlen)` elements in insertion order |
| TelemetryStore.WindowAppend | app3.py:29 | appending to a window gives the window of the whole sequence: oldest-first eviction |
| TelemetryStore.Store.constructor | app3.py:29-32 | no latest reading, an empty history and tare offset 0 |
| TelemetryStore.Store.Record | app3.py:138-140 | `latest` becomes the item, the history becomes the window of old history plus the item, ends with the item when the bound is positive, and stays within its bound |
| TelemetryStore.RecordAll | app3.py:138-140 | recording items one by one into a history within its bound keeps the newest `HISTORY_SIZE` of old and new items, in insertion order |
| TelemetryStore.EvictsOldest | app3.py:29 | with room for three, recording weights 10, 20, 30, 40 keeps 20, 30, 40 |
| TelemetryStore.PySliceFrom | app3.py:329 | `s[start:]` for any integer start is a suffix of `s` |
| TelemetryStore.HistorySlice | app3.py:329 | `[-n:]` keeps the newest `n` when `n > 0`, everything when `n == 0`, and all but the oldest `-n` when `n < 0` |
| TelemetryStore.Adjusted | app3.py:313-319 | a reported copy keeps the timestamp and counter, and its weight plus the tare offset is the raw weight (as at app3.py:333-338 for history items) |
| TelemetryStore.AdjustAll | app3.py:331-339 | one adjusted copy per item, in order, each with weight `raw - tare_offset` |
| TelemetryStore.Recent | app3.py:328-340 | the history view has the length `list(history)[-n:]` has in each case of `n`, oldest first, each item reported as raw weight minus the offset |
| TelemetryStore.Store.ApiHistory | app3.py:322-340 | the response has the length `list(history)[-n:]` has: the newest `n` when `n > 0`, all when `n == 0`, all but the oldest `-n` when `n < 0`; each element is the stored item at the matching newest position with weight raw minus the tare offset; a function of the state, so it changes nothing |
| TelemetryStore.Store.ApiLatest | app3.py:309-320 | nothing before the first reading; otherwise the latest reading with the same timestamp and counter and with weight `raw - tare_offset`; stored data is not changed |
| TelemetryStore.Store.Tare | app3.py:345-352 | with no reading it fails and keeps the offset; otherwise the offset becomes the raw latest weight and `api_latest` then reports 0 g; readings are not touched |
| Ingest.ItemOf | app3.py:127-137 | a frame gives an item iff it has type 1 and an 8-byte payload; the item carries the clock reading |
| Ingest.StoredAsParsed | app3.py:128-135 | a stored item carries exactly the counter and weight parsed from the payload |
| Ingest.Ingested | app3.py:126-137 | a sequence of frames never gives more items than frames |
| Ingest.IgnoresOtherFrames | app3.py:127-130 | frames of other types, and telemetry frames of the wrong size, store nothing |
| Ingest.ReadingArrives | app3.py:103-139 | end to end: a reading sent as a telemetry frame is the first frame decoded, whatever follows it, and is stored exactly |
| Ingest.HandleFrame | app3.py:127-140 | one iteration records the frame's item or changes nothing, keeping the store invariant and the tare offset |
| Ingest.Consume | app3.py:126-140 | after a run of frames the history is the window of old history plus the ingested items, and `latest` is the last of them (or unchanged when there are none) |
| Notify.IndexOf | ble_scales_app.py:41-42 | the first position of a byte: it is there and not before |
| Notify.Partition | ble_scales_app.py:42 | `partition(b"\n")`: a line without newline, the newline, then the rest, together equal to the buffer |
| Notify.SplitLines | ble_scales_app.py:41-43 | repeated partition leaves no newline in any line or in the rest, and the lines each followed by `\n`, then the rest, give back the buffer |
| Notify.SplitJoined | ble_scales_app.py:41-43 | splitting is the inverse of joining: newline-free lines and rest are recovered exactly |
| Notify.SplitChunked | ble_scales_app.py:38-43 | the lines do not depend on how the bytes are cut into notifications |
| Notify.DeviceId | ble_scales_app.py:47 | the message's id when present and non-empty, else the session name |
| Notify.ReadingOf | ble_scales_app.py:48-51 | the entry written for a message has its grams, its `ts` or else the receipt time `time.time()`, and the session's name and address |
| Notify.ApplyLines | ble_scales_app.py:44-53 | handling lines in order never removes a device from `latest` and adds at most one device per line |
| Notify.ApplyFrame | ble_scales_app.py:44-53 | handling lines writes exactly the ids of the lines that decode and leaves every other entry of `latest` as it was |
| Notify.ApplyAppend | ble_scales_app.py:41-53 | handling lines in two batches is handling them all in order |
| Notify.SkipsBadLine | ble_scales_app.py:44-53 | a line that fails to decode writes nothing, and the lines after it are handled as if it were absent |
| Notify.LastWriteWins | ble_scales_app.py:50-51 | after a line that decodes, its device's entry is that line's grams, ts, session name and address |
| Notify.TwoNotifications | ble_scales_app.py:37-53 | two notifications in a row leave the same buffer and table as one notification carrying both |
| Notify.DeviceTable.constructor | ble_scales_app.py:15 | the table starts empty |
| Notify.NotifySession.constructor | ble_scales_app.py:35 | a session starts with an empty buffer |
| Notify.NotifySession.HandleLine | ble_scales_app.py:44-53 | one line writes its device's entry if it decodes and changes nothing otherwise |
| Notify.NotifySession.HandleNotify | ble_scales_app.py:37-53 | the new buffer is the rest of splitting old buffer plus data and has no newline; the table is updated by exactly the split lines, in order |
| Discovery.Lower | ble_scales_app.py:74 | lowering keeps the length and lowers each ASCII letter |
| Discovery.NameOf | ble_scales_app.py:72 | `d.name or ""` |
| Discovery.LowerAll | ble_scales_app.py:73-74 | every advertised UUID is lowered, in order |
| Discovery.StartsWith | ble_scales_app.py:75 | `str.startswith`: the prefix fits in the string and agrees with it character by character |
| Discovery.Matches | ble_scales_app.py:75-77 | `match_name or match_uuid`: a name carrying the prefix always matches, and an advert without UUIDs matches exactly when its name carries the prefix |
| Discovery.MatchesIff | ble_scales_app.py:72-77 | a device matches iff its name starts with the prefix or one of its UUIDs equals the lowered service UUID in any case |
| Discovery.NamelessNeedsUuid | ble_scales_app.py:72-77 | a device without a name matches only through its UUIDs |
| Discovery.UuidCaseIgnored | ble_scales_app.py:74-76 | the case of advertised UUIDs does not affect matching |
| Discovery.SessionName | ble_scales_app.py:80 | the session name is the device name when it is non-empty, else the address |
| Discovery.SessionOf | ble_scales_app.py:80 | the session started for an advert has its address and the name `name or d.address` |
| Discovery.ScanAll | ble_scales_app.py:71-80 | the `tasks` map after a scan round: every session already started is kept as it is |
| Discovery.MatchedAddresses | ble_scales_app.py:71-77 | exactly the addresses of the matching adverts |
| Discovery.ScanGrows | ble_scales_app.py:78-80 | a scan only adds: existing sessions are never replaced, and the addresses afterwards are the old ones plus the matched ones |
| Discovery.ScanKeeps | ble_scales_app.py:78 | an address with a session keeps that session through a scan |
| Discovery.FirstMatchWins | ble_scales_app.py:78-80 | a new session belongs to the first matching advert for its address |
| Discovery.ScanIdempotent | ble_scales_app.py:71-80 | scanning the same adverts again starts nothing new |
| Discovery.Manager.constructor | ble_scales_app.py:66 | `tasks` starts empty |
| Discovery.Manager.Scan | ble_scales_app.py:71-80 | the loop over the adverts leaves `tasks` as `ScanAll` of the old map |
| Devices.StrLess | ble_scales_app.py:175 | Python's `<` on the ids the sort compares: a proper prefix comes first, and no string is less than itself |
| Devices.StrLessTotal | ble_scales_app.py:175 | two different ids are ordered one way or the other, so sorting by id leaves no ties |
| Devices.StrLessTransitive | ble_scales_app.py:175 | the string order on ids is transitive |
| Devices.MinKey | ble_scales_app.py:175 | the least id of a non-empty set of ids |
| Devices.EntryOf | ble_scales_app.py:168-174 | the element for a device carries its id and the stored name, grams, ts and address |
| Devices.Snapshot | ble_scales_app.py:165-175 | one entry per key of `latest`, each with the stored reading of its id, sorted strictly ascending by id |
| Devices.ApiDevices | ble_scales_app.py:163-176 | `count` equals the number of devices, which equals the number of keys of `latest`, and the devices are the snapshot |
| Devices.OneEntryPerDevice | ble_scales_app.py:167-174 | every device of `latest` appears at exactly one position, with its stored reading |
| Devices.SnapshotUnique | ble_scales_app.py:175 | any two sorted lists with these properties are equal, so the response depends on the table alone and not on its insertion order |

## Left out

- Bluetooth I/O is not modelled. That covers PyBluez discovery, `find_service`, socket connect, `recv` and `close`, and the bleak scanner and client with `start_notify`. Received chunks, notification payloads, scan results and connect outcomes are inputs.
- Concurrency is not modelled: asyncio tasks, the event loop, background threads and locks. In app3.py each store operation is one atomic step, because `data_lock` covers the whole of it. In ble_scales_app.py notifications do not interleave with each other because every bleak callback runs on the one event loop (ble_scales_app.py:89-94), not because of `latest_lock`.
- Notify.NotifySession.HandleNotify: `latest_lock` covers only the single write at ble_scales_app.py:50-51, not the loop at 41-53. So `api_devices`, running on a Flask thread, can read the table after only some of a notification's lines. That state is `ApplyLines` of a prefix of the split lines, which `ApplyAppend` relates to the whole; the model states only the table after the whole notification.
- Flask routes, HTML, `jsonify` and query-string parsing are left out. `api_history` takes `n` as an already-parsed integer, so the default of 50 and the `ValueError` fallback are outside the model.
- `weight_kg` is left out because it is float rounding (`round(g / 1000.0, 3)`). The integer `weight_g` is modelled exactly.
- Clocks are not modelled. `datetime.now().strftime(...)` is the timestamp string each frame arrives with. `time.time()` is the value `now`, one per `HandleNotify` call, whereas the source reads the clock once per line.
- Notify.NotifySession.HandleNotify: JSON is not modelled. UTF-8 decoding, `strip`, `json.loads`, `msg.get` and the `float` conversions are the parameter `parse`, which fails or yields a message. Any exception is a failed parse, and a non-string `id` is outside the model.
- Discovery.Lower: `str.lower` is modelled for ASCII letters only, which covers UUIDs. The name prefix is never lowered: `name.startswith(NAME_PREFIX)` is case-sensitive, and so is the model.
- Discovery: environment configuration is not read. `NAME_PREFIX` and `SERVICE_UUID` are fixed at their defaults. The lowered service UUID is stated as a literal, because proving `Lower` of the 36-character setting costs too much. The scan interval, the reconnect delay and the poll interval are not modelled, since the sleeps are left out.
- TelemetryStore.Store.constructor: `HISTORY_SIZE` is the constructor parameter `capacity`, any natural number, as `deque(maxlen=...)` accepts. The default of 500 is not singled out.
- Discovery.Manager.Scan: a scan round whose discovery raises is the round with no adverts. The model does not cover an exception raised part-way through the advert loop.
- The UUID check inside `handle_device` only prints, so it is left out. So are the `mock` field of `/api/devices`, the mock producer (`random`), the `sleep` calls and all logging.
- Devices.ApiDevices: the `.get` defaults for `name`, `ts` and `address` are not modelled, because every entry written by `handle_notify` has all three.
- Ingest: the `struct.error` branch of `parse_telemetry` is left out, because it cannot happen once the length is 8.
