# Sensor reading store — a Dafny model

The service accepts sensor readings over HTTP. Each reading has a device name, an optional temperature and an optional humidity. The service keeps them in one process-wide list (`STORAGE` in `main.py`) and writes the whole list to a JSON snapshot file after every append. `/data` returns the most recent part of the list. This project models that store:

- `POST /send` (`ingest`) rejects a payload that has neither a temperature nor a humidity, with status 400. Otherwise it builds a record with a `received_at` timestamp and appends it. If the list then holds more than 10,000 entries, it is cut down in place to its last 5,000. The whole list is then persisted.
- `GET /data` (`get_data`) returns `STORAGE[-limit:]`, with `limit` defaulting to 500.
- At startup the list is read from the snapshot file. A missing file or one that does not parse gives an empty list.

Modules:

- `Wrappers` (wrappers.dfy) defines `Option` and `Result`.
- `PySlice` (pyslice.dfy) models Python's open-ended slice `s[start:]`. A negative start counts from the end. A start past either end is clamped. Both the read and the trim use this one definition.
- `SensorStore` (sensor_store.dfy) holds the rest:
  - `Payload` and `Reading` datatypes, plus the pure validation and record builder `MakeRecord`.
  - The specification of one append with its trim (`Appended`) and of the read (`Recent`).
  - The class `Store`, whose field `readings` is `STORAGE` and whose field `disk` is the snapshot file. Its methods `Ingest` and `GetData` are the two handlers. `Persist` is the snapshot write.
  - A fold `IngestAll` with lemmas about any number of appends.

Temperature and humidity are only copied, so their type is a parameter `V`. The timestamp that `datetime.utcnow().isoformat()` produces is an input of `Ingest`. So is the way the snapshot write ends (`WriteFault`).

Where the code and the written design of the system disagree, the model follows the code:

- **Read with `limit <= 0`.** The design says that `recent(0)` and negative limits return an empty sequence. The code returns `STORAGE[-limit:]`. For `limit == 0` that is the whole list. For `limit == -k` it is the list without its first `k` entries. `Recent` states exactly this.
- **First trim.** The design says that after 10,001 appends to an empty store, the first entry is the 5,001st reading. The code keeps the last 5,000 of 10,001 entries, so the first entry is the 5,002nd reading. `FirstTrim` proves this.
- **Where validation happens.** The design puts the empty-payload check in the boundary layer and says `received_at` is set only "if not already set". In the code, `ingest` itself rejects the payload, and it always sets `received_at`.

## Model

| member | source | states |
|---|---|---|
| `PySlice.SliceFrom` | main.py:61 | Python's `s[start:]` is a contiguous tail of `s`. A start in `0..len` drops that many entries. A start past the end gives `[]`. A start in `-len..-1` keeps exactly `-start` entries. A start below `-len` keeps everything. |
| `SensorStore.MakeRecord` | main.py:41-49 | The payload is rejected with `NoData` (status 400) exactly when both temperature and humidity are absent. Otherwise the record copies device, temperature and humidity unchanged, carries the given `received_at`, and has at least one measurement. |
| `SensorStore.Appended` | main.py:50-53 | If the list is at most 10,000 long after the append, the new store is the old one followed by the record. If it exceeds 10,000, the new store is the last 4,999 old entries followed by the record, in order, with length exactly 5,000. In every case the length is at most 10,000, the record is last, and the store is a tail of old store plus record. |
| `SensorStore.Recent` | main.py:59-61 | The result is a contiguous tail of the store in store order. `limit == 0` returns the whole store. A positive limit returns `min(limit, len)` entries. A limit at or above the length returns the whole store. `limit == -k` returns the store without its first `min(k, len)` entries. |
| `SensorStore.Store.Load` | main.py:15-23 | At startup the store holds the snapshot's readings. It is empty when the file is missing or does not parse. The in-memory list then agrees with the file (`Valid`). |
| `SensorStore.Store.Persist` | main.py:35-37 | A successful write leaves a file that reloads to exactly the in-memory list. A failure before the file is opened leaves the file as it was. A failure after opening leaves a truncated file, which reloads as empty. `ok` reports whether the write succeeded. |
| `SensorStore.Store.Ingest` | main.py:39-56 | A payload with no measurement returns `NoData` and changes neither the list nor the file. Any other payload makes the list `Appended(old list, record)`, so its length is at most 10,000 whatever the previous length. On success, the record built from the payload and timestamp is the last entry and the file reloads to the list. A failed write reports `PersistFailed` but keeps the in-memory append. |
| `SensorStore.Store.GetData` | main.py:58-61 | Returns `Recent(readings, limit)` and modifies nothing. |
| `SensorStore.IngestAll` | main.py:50-53 | After one or more appends in a row, the store holds at most 10,000 entries and its last entry is the last record appended. |
| `SensorStore.AppendedKeepsTail` | main.py:50-53 | One append keeps the store a tail of its history. The store stays at least as long as that history or 5,000 entries, whichever is less. |
| `SensorStore.IngestAllKeepsRecentHistory` | main.py:50-53 | After any number of appends to any starting list, the store is a contiguous tail of the starting list followed by all appended records, in order. Its length is at least the smaller of that total and 5,000. Nothing recent is lost or duplicated. |
| `SensorStore.IngestAllBelowCap` | main.py:50-52 | As long as the total never exceeds 10,000, appending is plain concatenation and no trim happens. |
| `SensorStore.FirstTrim` | main.py:52-53 | From an empty store, 10,001 appends leave exactly the last 5,000 records. The first of them is the 5,002nd record appended. |

## Left out

- JSON encoding and decoding. The snapshot file is the datatype `SnapshotFile`: missing, malformed, or holding a list of readings. The model does not cover these cases: the file parsing to something that is not a list, `open` failing at startup (it sits outside the `try` at main.py:17-21), and numbers changing on the way through JSON.
- File-system failures during `persist`. They are a parameter of `Ingest` (`WriteFault`), not an observed effect. FastAPI's mapping of the resulting exception to status 500 is modelled only as `IngestError.Status`.
- The clock. `received_at` is an input string. Its ISO-8601 format and monotonicity are not modelled.
- The HTTP framework. That covers routing, the `SensorPayload` schema with pydantic's coercion (main.py:30-33), the default query value 500 (named `DefaultLimit`; callers of `GetData` pass it), static file mounting and `index` (main.py:25-29, 63-65).
- SensorStore.Store.Ingest: it returns the stored record on success instead of the literal `{"status": "ok"}` body, so its contract can name that record.
- Concurrency. The handlers run on one event loop, and `ingest` has no await point, so each call is atomic. The model treats calls as sequential.
- The `print(">10000")` log line (main.py:54).
- static/app.js is not part of this model. It is browser code that polls `/data` and updates the page.
