/**
 * The bounded in-memory store of sensor readings behind the `/send` and
 * `/data` endpoints of main.py: validation of an inbound payload, the
 * append that keeps the store under its retention cap, the read of the most
 * recent readings, and the whole-snapshot file the store is written to
 * after every append and read back from at startup.
 *
 * Temperature and humidity are only copied, never computed on, so their
 * type is the parameter `V`. The clock and the outcome of writing the
 * snapshot file are inputs.
 */
module SensorStore {
  import opened Wrappers
  import opened PySlice

  /** A store longer than this after an append is trimmed. */
  const MaxRetained := 10000
  /** How many of the most recent readings a trim keeps. */
  const RetainedAfterTrim := 5000
  /** The number of readings `/data` returns when the caller gives no limit. */
  const DefaultLimit := 500

  /** The body of a `/send` request. */
  datatype Payload<V> = Payload(device: string, temperature: Option<V>, humidity: Option<V>)

  /** One stored reading: the payload's fields plus the time it was received. */
  datatype Reading<V> = Reading(device: string, temperature: Option<V>, humidity: Option<V>, receivedAt: string)
  {
    predicate HasMeasurement()
    {
      temperature.Some? || humidity.Some?
    }
  }

  /** Why `/send` failed: the payload carried no measurement, or the snapshot could not be written. */
  datatype IngestError = NoData | PersistFailed
  {
    /** The HTTP status the client receives. */
    function Status(): int
    {
      match this
      case NoData => 400
      case PersistFailed => 500
    }
  }

  /**
   * The snapshot file as the startup code finds it: absent, present but not
   * parseable as JSON, or holding the readings last written to it.
   */
  datatype SnapshotFile<V> = Missing | Malformed | Saved(items: seq<Reading<V>>)

  /** How a write of the snapshot file ends: normally, before the file was opened, or after opening (and so truncating) it. */
  datatype WriteFault = NoFault | OpenFailed | DumpFailed

  /** The store the startup code builds from a snapshot file: a missing or unreadable file gives an empty store. */
  function Loaded<V>(f: SnapshotFile<V>): seq<Reading<V>>
  {
    match f
    case Saved(items) => items
    case _ => []
  }

  /** Checks a payload and builds the record `/send` appends, stamped with `receivedAt`. */
  function MakeRecord<V>(p: Payload<V>, receivedAt: string): (r: Result<Reading<V>, IngestError>)
    ensures r.Failure? <==> p.temperature.None? && p.humidity.None?
    ensures r.Failure? ==> r.error == NoData && r.error.Status() == 400
    ensures r.Success? ==> r.value.HasMeasurement()
    ensures r.Success? ==>
              r.value.device == p.device && r.value.temperature == p.temperature &&
              r.value.humidity == p.humidity && r.value.receivedAt == receivedAt
  {
    if p.temperature.None? && p.humidity.None? then Failure(NoData)
    else Success(Reading(p.device, p.temperature, p.humidity, receivedAt))
  }

  /** The store after `rec` is appended to `s`: the append followed by the trim to the last `RetainedAfterTrim` entries. */
  function Appended<V>(s: seq<Reading<V>>, rec: Reading<V>): (r: seq<Reading<V>>)
    ensures |s| + 1 <= MaxRetained ==> r == s + [rec]
    ensures MaxRetained < |s| + 1 ==> |r| == RetainedAfterTrim && r == s[|s| + 1 - RetainedAfterTrim..] + [rec]
    ensures 0 < |r| <= MaxRetained && r[|r| - 1] == rec
    ensures IsSuffix(r, s + [rec])
  {
    var t := s + [rec];
    if |t| > MaxRetained then SliceFrom(t, -RetainedAfterTrim) else t
  }

  /** What `/data?limit=limit` returns from a store holding `s`: Python's `s[-limit:]`. */
  function Recent<V>(s: seq<Reading<V>>, limit: int): (r: seq<Reading<V>>)
    ensures IsSuffix(r, s)
    ensures limit == 0 ==> r == s
    ensures 0 < limit ==> |r| == Min(limit, |s|)
    ensures |s| <= limit ==> r == s
    ensures limit < 0 ==> r == s[Min(-limit, |s|)..]
  {
    SliceFrom(s, -limit)
  }

  /** The process-wide store: the list of readings in memory and the snapshot file on disk. */
  class Store<V> {
    var readings: seq<Reading<V>>
    var disk: SnapshotFile<V>

    /** Restarting the process now would rebuild exactly the readings held in memory. */
    ghost predicate Valid()
      reads this
    {
      Loaded(disk) == readings
    }

    /** Startup: the store holds what the snapshot file holds, or nothing if the file is missing or unreadable. */
    constructor Load(file: SnapshotFile<V>)
      ensures disk == file
      ensures file.Saved? ==> readings == file.items
      ensures !file.Saved? ==> readings == []
      ensures Valid()
    {
      disk := file;
      readings := Loaded(file);
    }

    /** Rewrites the snapshot file with the whole store; `ok` is false when the write raised. */
    method Persist(fault: WriteFault) returns (ok: bool)
      modifies this`disk
      ensures ok <==> fault == NoFault
      ensures fault == NoFault ==> disk == Saved(readings) && Valid()
      ensures fault == OpenFailed ==> disk == old(disk)
      ensures fault == DumpFailed ==> disk == Malformed && Loaded(disk) == []
    {
      if fault == NoFault {
        disk := Saved(readings);
      } else if fault == DumpFailed {
        // The file was opened for writing, which empties it, and the
        // write stopped before the closing bracket of the JSON list.
        disk := Malformed;
      }
      ok := fault == NoFault;
    }

    /**
     * Handles `/send`: rejects a payload without a measurement, leaving
     * everything as it was; otherwise appends the record, trims the store,
     * and rewrites the snapshot. A failed write is reported, but the
     * in-memory append stays.
     */
    method Ingest(p: Payload<V>, receivedAt: string, fault: WriteFault) returns (r: Result<Reading<V>, IngestError>)
      modifies this
      ensures r == Failure(NoData) <==> p.temperature.None? && p.humidity.None?
      ensures r == Failure(NoData) ==> readings == old(readings) && disk == old(disk)
      ensures r != Failure(NoData) ==>
                readings == Appended(old(readings), Reading(p.device, p.temperature, p.humidity, receivedAt))
      ensures r != Failure(NoData) ==> |readings| <= MaxRetained
      ensures r.Success? <==> r != Failure(NoData) && fault == NoFault
      ensures r.Success? ==>
                r.value == Reading(p.device, p.temperature, p.humidity, receivedAt) &&
                readings[|readings| - 1] == r.value &&
                disk == Saved(readings) && Valid()
      ensures r == Failure(PersistFailed) && fault == OpenFailed ==> disk == old(disk)
      ensures r == Failure(PersistFailed) && fault == DumpFailed ==> disk == Malformed
    {
      var built := MakeRecord(p, receivedAt);
      if built.Failure? {
        return built;
      }
      var record := built.value;
      readings := readings + [record];
      if |readings| > MaxRetained {
        readings := SliceFrom(readings, -RetainedAfterTrim);
      }
      var ok := Persist(fault);
      r := if ok then Success(record) else Failure(PersistFailed);
    }

    /** Handles `/data`: the most recent readings, read without changing the store. */
    method GetData(limit: int) returns (r: seq<Reading<V>>)
      ensures r == Recent(readings, limit)
    {
      r := SliceFrom(readings, -limit);
    }
  }

  /** The store after the records `recs` are appended one by one, in order, to a store holding `s`. */
  function IngestAll<V>(s: seq<Reading<V>>, recs: seq<Reading<V>>): (r: seq<Reading<V>>)
    ensures recs != [] ==> 0 < |r| <= MaxRetained && r[|r| - 1] == recs[|recs| - 1]
    decreases |recs|
  {
    if recs == [] then s
    else Appended(IngestAll(s, recs[..|recs| - 1]), recs[|recs| - 1])
  }

  /** One append keeps the store a tail of the history, at least as long as that history or `RetainedAfterTrim`. */
  lemma AppendedKeepsTail<V>(t: seq<Reading<V>>, h: seq<Reading<V>>, x: Reading<V>)
    requires IsSuffix(t, h) && |t| >= Min(|h|, RetainedAfterTrim)
    ensures IsSuffix(Appended(t, x), h + [x])
    ensures |Appended(t, x)| >= Min(|h| + 1, RetainedAfterTrim)
  {
    SuffixExtended(t, h, x);
    SuffixOfSuffix(Appended(t, x), t + [x], h + [x]);
  }

  /** The inductive step of `IngestAllKeepsRecentHistory`: the last record of `recs` appended to the store built from the others. */
  lemma IngestOneMoreKeepsTail<V>(s: seq<Reading<V>>, recs: seq<Reading<V>>)
    requires recs != []
    requires IsSuffix(IngestAll(s, recs[..|recs| - 1]), s + recs[..|recs| - 1])
    requires |IngestAll(s, recs[..|recs| - 1])| >= Min(|s| + |recs| - 1, RetainedAfterTrim)
    ensures IsSuffix(IngestAll(s, recs), s + recs)
    ensures |IngestAll(s, recs)| >= Min(|s| + |recs|, RetainedAfterTrim)
  {
    var front, x := recs[..|recs| - 1], recs[|recs| - 1];
    AppendedKeepsTail(IngestAll(s, front), s + front, x);
    SplitLast(recs);
    AppendAfterConcat(s, front, x);
  }

  /**
   * However many appends happen, the store is the unbroken tail of
   * everything it ever held, in order, and it is never shorter than that
   * history or `RetainedAfterTrim`, whichever is less: nothing recent is
   * lost and nothing is duplicated.
   */
  lemma {:induction false} IngestAllKeepsRecentHistory<V>(s: seq<Reading<V>>, recs: seq<Reading<V>>)
    ensures IsSuffix(IngestAll(s, recs), s + recs)
    ensures |IngestAll(s, recs)| >= Min(|s| + |recs|, RetainedAfterTrim)
    decreases |recs|
  {
    if recs == [] {
      assert s + recs == s;
    } else {
      IngestAllKeepsRecentHistory(s, recs[..|recs| - 1]);
      IngestOneMoreKeepsTail(s, recs);
    }
  }

  /** While the cap is never exceeded, appending is plain concatenation. */
  lemma {:induction false} IngestAllBelowCap<V>(s: seq<Reading<V>>, recs: seq<Reading<V>>)
    requires |s| + |recs| <= MaxRetained
    ensures IngestAll(s, recs) == s + recs
    decreases |recs|
  {
    if recs != [] {
      var front, x := recs[..|recs| - 1], recs[|recs| - 1];
      IngestAllBelowCap(s, front);
      SplitLast(recs);
      AppendAfterConcat(s, front, x);
    }
  }

  /**
   * Starting empty, the append of the 10,001st reading triggers the first
   * trim: the store then holds 5,000 readings, the first of which is the
   * 5,002nd appended (the 5,001 oldest are gone).
   */
  lemma FirstTrim<V>(recs: seq<Reading<V>>)
    requires |recs| == MaxRetained + 1
    ensures IngestAll([], recs) == recs[MaxRetained + 1 - RetainedAfterTrim..]
    ensures |IngestAll([], recs)| == RetainedAfterTrim && IngestAll([], recs)[0] == recs[5001]
  {
    var front := recs[..MaxRetained];
    IngestAllBelowCap([], front);
    assert [] + front == front;
    assert front + [recs[MaxRetained]] == recs;
  }
}
