/**
 * `Log`: the persisted task file together with the entries loaded from it, and the
 * operations on it — load (decode every record, then sort), save (assign an index and
 * append one record), delete and the decoding loop of `read_or_create`.
 *
 * The file is a sequence of rows. How a row is laid out as csv text is not modelled: a
 * row is either the header line or a serialised entry, and reading a row back is a
 * parameter `decode` that may fail.
 */
module Store {
  import opened Results
  import opened Decimal
  import opened Entry
  import opened Sorting

  /** One line of the persisted file. */
  datatype Row = HeaderRow | EntryRow(entry: LogEntry)

  /** An open log: the persisted file and the entries held in memory. */
  datatype Log = Log(file: seq<Row>, entries: seq<LogEntry>)

  /** The rows the csv reader yields: it takes the first line of the file as the header. */
  function Records(file: seq<Row>): seq<Row> {
    if |file| == 0 then [] else file[1..]
  }

  /**
   * Decodes every record in file order and stops at the first one that fails, whose
   * error becomes the result.
   */
  function DecodeAll<E>(records: seq<Row>, decode: Row -> Result<LogEntry, E>): (r: Result<seq<LogEntry>, E>)
    ensures r.Success? <==> forall i :: 0 <= i < |records| ==> decode(records[i]).Success?
    ensures r.Success? ==>
      && |r.value| == |records|
      && forall i :: 0 <= i < |records| ==> decode(records[i]) == Success(r.value[i])
    ensures r.Failure? ==>
      exists i :: && 0 <= i < |records|
                  && decode(records[i]) == Failure(r.error)
                  && forall j :: 0 <= j < i ==> decode(records[j]).Success?
    decreases |records|
  {
    if |records| == 0 then
      Success([])
    else
      match decode(records[0])
      case Failure(err) => Failure(err)
      case Success(e) =>
        match DecodeAll(records[1..], decode)
        case Failure(err) =>
          assert forall j :: 1 <= j < |records| ==> records[j] == records[1..][j - 1];
          Failure(err)
        case Success(es) =>
          assert forall j :: 1 <= j < |records| ==> records[j] == records[1..][j - 1];
          Success([e] + es)
  }

  /**
   * `Log::read_or_create` after the file is open: all records decode or the load fails
   * with the first record's error and yields no log; on success the entries are the
   * decoded records, stably sorted by index.
   */
  function Load<E>(file: seq<Row>, decode: Row -> Result<LogEntry, E>): (r: Result<Log, E>)
    ensures r.Success? <==> forall i :: 0 <= i < |Records(file)| ==> decode(Records(file)[i]).Success?
    ensures r.Failure? ==>
      exists i :: && 0 <= i < |Records(file)|
                  && decode(Records(file)[i]) == Failure(r.error)
                  && forall j :: 0 <= j < i ==> decode(Records(file)[j]).Success?
    ensures r.Success? ==>
      && r.value.file == file
      && StablySorts(DecodeAll(Records(file), decode).value, r.value.entries)
  {
    match DecodeAll(Records(file), decode)
    case Failure(err) => Failure(err)
    case Success(es) => Success(Log(file, Sort(es)))
  }

  /** The loop of `read_or_create`: decode and push record by record, bail out on an error, sort. */
  method ReadOrCreate<E>(file: seq<Row>, decode: Row -> Result<LogEntry, E>) returns (r: Result<Log, E>)
    ensures r == Load(file, decode)
  {
    var records := Records(file);
    var entries: seq<LogEntry> := [];
    var i := 0;
    while i < |records|
      invariant 0 <= i <= |records|
      invariant |entries| == i
      invariant forall j :: 0 <= j < i ==> decode(records[j]) == Success(entries[j])
    {
      var result := decode(records[i]);
      if result.Failure? {
        ghost var all := DecodeAll(records, decode);
        assert all.Failure?;
        ghost var k :| 0 <= k < |records| && decode(records[k]) == Failure(all.error)
                 && forall j :: 0 <= j < k ==> decode(records[j]).Success?;
        assert k == i;
        return Failure(result.error);
      }
      entries := entries + [result.value];
      i := i + 1;
    }
    assert DecodeAll(records, decode).value == entries;
    r := Success(Log(file, Sort(entries)));
  }

  /** The last entry's index, if there is one, leaves room for one more `i8`. */
  predicate CanAssign(entries: seq<LogEntry>) {
    || |entries| == 0
    || entries[|entries| - 1].index.None?
    || entries[|entries| - 1].index.value < MaxI8
  }

  /** The entry `save` writes: index 1 on an empty log, else one past the last entry's index. */
  function Assign(entries: seq<LogEntry>, entry: LogEntry): LogEntry
    requires CanAssign(entries)
  {
    if |entries| == 0 then
      entry.(index := Some(1))
    else
      match entries[|entries| - 1].index
      case Some(last) => entry.(index := Some(last + 1))
      case None => entry
  }

  /**
   * `Log::save`: appends one record to the file, preceded by a header exactly when the
   * log holds no entries; the entries in memory are left alone.
   */
  function Save(log: Log, entry: LogEntry): (r: Log)
    requires CanAssign(log.entries)
    ensures r.entries == log.entries
    ensures |log.entries| == 0 ==>
      r.file == log.file + [HeaderRow, EntryRow(LogEntry(Some(1), entry.message))]
    ensures |log.entries| > 0 ==>
      var last := log.entries[|log.entries| - 1];
      && (last.index.Some? ==>
            r.file == log.file + [EntryRow(LogEntry(Some(last.index.value + 1), entry.message))])
      && (last.index.None? ==> r.file == log.file + [EntryRow(entry)])
  {
    var header := if |log.entries| == 0 then [HeaderRow] else [];
    Log(log.file + header + [EntryRow(Assign(log.entries, entry))], log.entries)
  }

  /**
   * On a sorted log whose last entry has an index, the index `save` assigns is one past
   * the largest index held, so it is above every entry.
   */
  lemma SaveAssignsMaxPlusOne(log: Log, entry: LogEntry)
    requires Sorted(log.entries) && |log.entries| > 0
    requires log.entries[|log.entries| - 1].index.Some?
    requires CanAssign(log.entries)
    ensures var e := Save(log, entry).file[|log.file|].entry;
      && e.index.Some?
      && (exists j :: 0 <= j < |log.entries| && log.entries[j].index == Some(e.index.value - 1))
      && (forall j :: 0 <= j < |log.entries| ==> Rank(log.entries[j].index) < Rank(e.index))
  {
    var n := |log.entries|;
    forall j | 0 <= j < n
      ensures Rank(log.entries[j].index) <= log.entries[n - 1].index.value
    {
      if j < n - 1 {
        assert Le(log.entries[j], log.entries[n - 1]);
      }
    }
  }

  /** `Log::delete`: changes neither the file nor the entries, whatever it is asked to remove. */
  function Delete(log: Log, entry: LogEntry): (r: Log)
    ensures r.file == log.file && r.entries == log.entries
  {
    log
  }
}
