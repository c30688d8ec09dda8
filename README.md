# JellyBean MR2 cycled LE scanner, modelled in Dafny

This project models the scanner that the Android Beacon Library uses on Android 4.3
(API 18), `CycledLeScannerForJellyBeanMr2`. It covers two parts of that class.

**Service-data parser** (`service_data.dfy`, `ad_fields.dfy`). `parseServiceData`
walks a Bluetooth LE advertising record. The record is a run of AD structures, as in
the Bluetooth Core Specification, Vol 3, Part C, section 11: a length octet, an AD
type octet, then the payload. The parser collects the Service Data fields into a map
from service UUID to data. These are AD types 0x16, 0x20 and 0x21, for 16-, 32- and
128-bit UUIDs (Core Specification Supplement, Part A, section 1.11).

- `ParseServiceData` is the source's cursor loop, written as a `while` loop.
- It is proved equal to the ghost function `ServiceDataOf`, which is defined by
  recursion over the rest of the record (`Walk`).
- Two reference definitions give `ServiceDataOf` its meaning, and lemmas relate
  them to it:
  - `IsEntryAt` says where an entry can come from: a service-data field at some
    offset of the record.
  - `FieldStart` says which offsets the parser actually reaches, field by field
    from the start of the record. An offset inside a skipped field's payload is
    not one of them.
  - `EncodeAll`/`Collect` build a record from a list of fields and give the entries
    the parser should recover.
- Octets are `byte`, 0..255, because the source reads each length and type octet
  with `& 0xFF`.
- Turning UUID octets into a UUID (`BluetoothUuid.parseUuidFrom`) is the parameter
  `uuidOf`. It is applied to exactly the 2, 4 or 16 UUID octets.

**Scan control** (`scanner.dfy`). This is the class
`Scanner.CycledLeScannerForJellyBeanMr2`. Its fields are:

- state owned by the base scanner: `nextScanCycleStartTime`, `backgroundFlag`,
  `scanningPaused`, and `adapterPresent` (whether `getBluetoothAdapter()` returns an
  adapter);
- the lazily created `leScanCallback`;
- the worker handler's queue `workerQueue`;
- `mainThreadLog`, the wake-up alarms and delayed re-checks asked of the main thread;
- `scanEvents`, what the consumer's `onLeScan` receives.

Its invariant `Valid()` says four things:

- at most one worker task is pending;
- every pending task uses the one shared callback;
- every re-check delay lies in (0, 1000];
- every delivered event carries the service data parsed from its own record.

The current time is a parameter.

## Notes on behaviour

- A non-service field whose declared length runs past the end of the record is not
  an error. The loop ends normally and keeps the entries parsed before that field
  (`TruncatedSkippedFieldKeepsEntries`). A failed read discards everything. Failed
  reads are a missing type octet, a UUID or data copy past the end, and a negative
  data length.
- Each deferring call to `deferScanIfNeeded` in background mode asks for a wake-up
  alarm again. `EarlyRestart` shows two deferrals asking for two alarms. Whether
  repeated requests collapse into one alarm depends on `setWakeUpAlarm`, which is
  not part of this model.
- `finishScan` marks the scanner paused even when no adapter is present. The early
  return is inside `postStopLeScan`.

## Model

| member | source | states |
|---|---|---|
| `ServiceData.ExtractBytes` | lib/src/main/java/org/altbeacon/beacon/service/scanner/CycledLeScannerForJellyBeanMr2.java:156-161 | the copy succeeds iff start and length are non-negative and the slice stays in the record; then it holds exactly those `length` octets |
| `ServiceData.ParseServiceData` | lib/src/main/java/org/altbeacon/beacon/service/scanner/CycledLeScannerForJellyBeanMr2.java:131-177 | the cursor loop returns exactly `ServiceDataOf(record)`: the collected entries on a clean end (zero length octet, end of buffer, or a skipped field overrunning it), the empty map on any failed read |
| `ServiceData.ServiceFieldStep` | lib/src/main/java/org/altbeacon/beacon/service/scanner/CycledLeScannerForJellyBeanMr2.java:146-168 | a service-data field makes the walk fail if L-1 < N or it runs past the end; otherwise it is an entry of the record and the walk goes on L+1 octets later with key = uuid of the first N payload octets and value = the following L-1-N octets |
| `ServiceData.StopStep` | lib/src/main/java/org/altbeacon/beacon/service/scanner/CycledLeScannerForJellyBeanMr2.java:135-140 | at the end of the record or at a zero length octet, the walk ends and keeps the entries it has |
| `ServiceData.MissingTypeStep` | lib/src/main/java/org/altbeacon/beacon/service/scanner/CycledLeScannerForJellyBeanMr2.java:144-175 | a non-zero length octet in the last position (no type octet to read) makes the walk fail |
| `ServiceData.SkippedFieldStep` | lib/src/main/java/org/altbeacon/beacon/service/scanner/CycledLeScannerForJellyBeanMr2.java:164-168 | a non-service field that fits in the record adds nothing; the walk goes on L+1 octets later |
| `ServiceData.OverrunStep` | lib/src/main/java/org/altbeacon/beacon/service/scanner/CycledLeScannerForJellyBeanMr2.java:135-170 | a non-service field whose declared length runs past the end ends the walk normally, keeping the entries so far |
| `ServiceData.WalkEntriesAreSlices` | lib/src/main/java/org/altbeacon/beacon/service/scanner/CycledLeScannerForJellyBeanMr2.java:135-168 | from any offset `off`, each entry the walk returns was either already in the accumulator or comes from a service-data field at an offset the walk reaches from `off` |
| `ServiceData.ServiceEntriesAreSlices` | lib/src/main/java/org/altbeacon/beacon/service/scanner/CycledLeScannerForJellyBeanMr2.java:146-162 | after a successful walk over a service-data field at `off`, every returned entry was already in the accumulator or comes from a service-data field at an offset the walk reaches from `off` |
| `ServiceData.ExplainedAfterAdd` | lib/src/main/java/org/altbeacon/beacon/service/scanner/CycledLeScannerForJellyBeanMr2.java:162 | a `put` of an entry taken from a record field keeps every map entry traceable to the accumulator or to a record field |
| `ServiceData.EntriesAreSlices` | lib/src/main/java/org/altbeacon/beacon/service/scanner/CycledLeScannerForJellyBeanMr2.java:146-162 | every parsed entry comes from a service-data field at an offset p the parser reaches from the start of the record: its key is uuidOf of the N octets after the type, its value the next L-1-N octets, both contiguous slices inside the record |
| `ServiceData.ExplainedFromNextField` | lib/src/main/java/org/altbeacon/beacon/service/scanner/CycledLeScannerForJellyBeanMr2.java:164-168 | entries explained by fields reached after the field at `off` are explained from `off` too, because the cursor moves from `off` to the next field by L+1 |
| `ServiceData.PayloadIsNotAFieldStart` | lib/src/main/java/org/altbeacon/beacon/service/scanner/CycledLeScannerForJellyBeanMr2.java:164-168 | octets inside the payload of a skipped field (offset 2 of a 6-octet Flags field) are not a field the parser reaches, even when they have the shape of a service-data field |
| `AdFields.WalkField` | lib/src/main/java/org/altbeacon/beacon/service/scanner/CycledLeScannerForJellyBeanMr2.java:135-168 | walking one encoded field adds its entry (a service-data field puts its UUID and data; any other field adds none) and goes on with what follows |
| `AdFields.WalkEncoded` | lib/src/main/java/org/altbeacon/beacon/service/scanner/CycledLeScannerForJellyBeanMr2.java:135-168 | walking the encoding of a well-formed field list adds the list's entries in order, then continues with whatever follows |
| `AdFields.ParseEncoded` | lib/src/main/java/org/altbeacon/beacon/service/scanner/CycledLeScannerForJellyBeanMr2.java:131-170 | round trip: the parser recovers exactly `Collect(fields)` from the encoding of well-formed fields |
| `AdFields.ZeroLengthStops` | lib/src/main/java/org/altbeacon/beacon/service/scanner/CycledLeScannerForJellyBeanMr2.java:137-140 | a zero length octet ends parsing: the entries before it are returned and any octets after it are ignored |
| `AdFields.LoneLengthDiscardsAll` | lib/src/main/java/org/altbeacon/beacon/service/scanner/CycledLeScannerForJellyBeanMr2.java:144-175 | a non-zero length octet with no type octet after it makes the parse return the empty map, discarding earlier entries |
| `AdFields.ShortServiceFieldDiscardsAll` | lib/src/main/java/org/altbeacon/beacon/service/scanner/CycledLeScannerForJellyBeanMr2.java:156-175 | a service-data field with L-1 < N fails (UUID copy out of range or negative data length), whatever follows; the result is the empty map |
| `AdFields.TruncatedServiceFieldDiscardsAll` | lib/src/main/java/org/altbeacon/beacon/service/scanner/CycledLeScannerForJellyBeanMr2.java:156-175 | a service-data field cut short by the end of the record yields the empty map, discarding earlier entries |
| `AdFields.TruncatedSkippedFieldKeepsEntries` | lib/src/main/java/org/altbeacon/beacon/service/scanner/CycledLeScannerForJellyBeanMr2.java:164-170 | a non-service field cut short after its type octet ends the loop normally; the entries parsed before it are returned |
| `AdFields.CollectFromUntouched` | lib/src/main/java/org/altbeacon/beacon/service/scanner/CycledLeScannerForJellyBeanMr2.java:162 | fields that do not carry a given UUID leave that UUID's entry (or its absence) unchanged |
| `AdFields.CollectFromLastWins` | lib/src/main/java/org/altbeacon/beacon/service/scanner/CycledLeScannerForJellyBeanMr2.java:162 | the entry for a UUID is the data of the last field carrying it |
| `AdFields.CollectFromKeys` | lib/src/main/java/org/altbeacon/beacon/service/scanner/CycledLeScannerForJellyBeanMr2.java:145-166 | a UUID has an entry iff it was already present or some service-data field carries it; non-service fields add none |
| `AdFields.ParseLastWriteWins` | lib/src/main/java/org/altbeacon/beacon/service/scanner/CycledLeScannerForJellyBeanMr2.java:162 | on a well-formed record, a UUID that appears twice maps to the data of its later field |
| `AdFields.ParseKeys` | lib/src/main/java/org/altbeacon/beacon/service/scanner/CycledLeScannerForJellyBeanMr2.java:145-166 | on a well-formed record, the parsed keys are exactly the UUIDs of its service-data fields |
| `AdFields.FlagsOnlyRecord` | lib/src/main/java/org/altbeacon/beacon/service/scanner/CycledLeScannerForJellyBeanMr2.java:135-170 | `[0x02, 0x01, 0x06]` (a Flags field) gives the empty map |
| `AdFields.HeartRateServiceRecord` | lib/src/main/java/org/altbeacon/beacon/service/scanner/CycledLeScannerForJellyBeanMr2.java:135-170 | `[0x05, 0x16, 0x0D, 0x18, 0xAA, 0xBB, 0x00]` gives `{uuidOf([0x0D, 0x18]) ↦ [0xAA, 0xBB]}` |
| `Scanner.DeferDelay` | lib/src/main/java/org/altbeacon/beacon/service/scanner/CycledLeScannerForJellyBeanMr2.java:53 | for a positive wait, the re-check delay is min(wait, 1000): positive, at most 1000, at most the wait, and equal to one of them |
| `Scanner.CycledLeScannerForJellyBeanMr2.constructor` | lib/src/main/java/org/altbeacon/beacon/service/scanner/CycledLeScannerForJellyBeanMr2.java:26-28 | the scanner starts with the given base-class state, no callback, empty queue, log and events, and satisfies its invariant |
| `Scanner.CycledLeScannerForJellyBeanMr2.DeferScanIfNeeded` | lib/src/main/java/org/altbeacon/beacon/service/scanner/CycledLeScannerForJellyBeanMr2.java:36-57 | defers iff nextScanCycleStartTime - now > 0; a deferral logs a wake-up alarm only in background mode, then exactly one re-check after `DeferDelay`; no deferral changes nothing; only the log may change, never nextScanCycleStartTime |
| `Scanner.CycledLeScannerForJellyBeanMr2.GetLeScanCallback` | lib/src/main/java/org/altbeacon/beacon/service/scanner/CycledLeScannerForJellyBeanMr2.java:112-129 | returns the existing callback if there is one, otherwise a freshly created one that is stored; nothing else changes |
| `Scanner.CycledLeScannerForJellyBeanMr2.PostStartLeScan` | lib/src/main/java/org/altbeacon/beacon/service/scanner/CycledLeScannerForJellyBeanMr2.java:70-89 | without an adapter nothing changes (not even the callback); otherwise the worker queue becomes exactly one start task with the shared callback, reused or freshly created |
| `Scanner.CycledLeScannerForJellyBeanMr2.PostStopLeScan` | lib/src/main/java/org/altbeacon/beacon/service/scanner/CycledLeScannerForJellyBeanMr2.java:91-110 | without an adapter nothing changes; otherwise the worker queue becomes exactly one stop task with the shared callback |
| `Scanner.CycledLeScannerForJellyBeanMr2.StartScan` | lib/src/main/java/org/altbeacon/beacon/service/scanner/CycledLeScannerForJellyBeanMr2.java:59-62 | dispatches a start request: same effect as `PostStartLeScan` |
| `Scanner.CycledLeScannerForJellyBeanMr2.StopScan` | lib/src/main/java/org/altbeacon/beacon/service/scanner/CycledLeScannerForJellyBeanMr2.java:30-33 | dispatches a stop request: same effect as `PostStopLeScan`, paused flag untouched |
| `Scanner.CycledLeScannerForJellyBeanMr2.FinishScan` | lib/src/main/java/org/altbeacon/beacon/service/scanner/CycledLeScannerForJellyBeanMr2.java:64-68 | dispatches a stop request and always sets `scanningPaused`, with or without an adapter |
| `Scanner.CycledLeScannerForJellyBeanMr2.OnLeScan` | lib/src/main/java/org/altbeacon/beacon/service/scanner/CycledLeScannerForJellyBeanMr2.java:117-125 | one advertisement appends exactly one event: the device, rssi, raw record, `ServiceDataOf(record)` and the receive time |
| `Scanner.StartThenStop` | lib/src/main/java/org/altbeacon/beacon/service/scanner/CycledLeScannerForJellyBeanMr2.java:70-110 | with an adapter, a start followed by a stop leaves only the stop pending (the last request wins), using the same callback the start used |

## Left out

- The radio calls `startLeScan`/`stopLeScan` (lines 83 and 104) and the exceptions they swallow. They are calls into the platform. A worker task records only which request was queued, with which callback.
- Threads and handlers. `post` and `removeCallbacksAndMessages(null)` are modelled as updates of the `workerQueue` sequence. `postDelayed` is modelled as a recorded delay in `mainThreadLog`. Tasks are never run.
- `SystemClock.elapsedRealtime()` and `System.currentTimeMillis()` are parameters: `now` and `timestampMs`.
- The base scanner `CycledLeScanner` is not part of this model: `setWakeUpAlarm`, `scanLeDevice`, `getBluetoothAdapter`, the updates of the next cycle start time, the cycle phases, pause/resume, any generation counter, and the calls to `onCycleEnd`. Their fields are plain state of the class. The alarm and the re-check are recorded effects.
- `BluetoothUuid.parseUuidFrom` is not part of this model. It is the parameter `uuidOf`, so the lemmas hold for any conversion. Whether a 16-bit and a 32-bit UUID with the same value become the same key is decided by that conversion.
- The `Pdu` and `BluetoothUuid` constants are not part of this model. The model uses the standard values: AD types 0x16, 0x20, 0x21 and UUID widths 2, 4, 16.
- `extractBytes` is not part of this model. It is modelled as a copy that fails on a negative length or a slice outside the record.
- The crash-resolver notification (line 123), logging, and `Arrays.toString` in the error path are left out.
- A null `scanRecord` is not modelled. In the source it would be caught and give an empty map. A record here is always a sequence.
- `CycledLeScanCallback` is represented only by the `LeScan` event that the callback's `onLeScan` delivers.
- Scanner.CycledLeScannerForJellyBeanMr2.DeferScanIfNeeded: does not model 64-bit `long` wrap-around of `mNextScanCycleStartTime - now`. Times are unbounded integers, because elapsed-realtime values are far from the limits.
