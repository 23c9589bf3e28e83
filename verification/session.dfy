/**
 * What one invocation of the tool leaves for the next. Each invocation loads the file,
 * performs one command and exits, so an added task becomes visible only when the next
 * invocation loads the file again.
 */
module Session {
  import opened Results
  import opened Decimal
  import opened Entry
  import opened Sorting
  import opened Store

  /** Reading back the row written for `e` gives `e`. */
  predicate RoundTrips<E>(decode: Row -> Result<LogEntry, E>, e: LogEntry) {
    decode(EntryRow(e)).Success? && decode(EntryRow(e)).value == e
  }

  /** Decoding the records of a file with one more entry row at the end. */
  lemma DecodeAppend<E>(records: seq<Row>, decode: Row -> Result<LogEntry, E>, e: LogEntry)
    requires DecodeAll(records, decode).Success?
    requires RoundTrips(decode, e)
    ensures DecodeAll(records + [EntryRow(e)], decode).Success?
    ensures DecodeAll(records + [EntryRow(e)], decode).value == DecodeAll(records, decode).value + [e]
  {
    var rs := records + [EntryRow(e)];
    assert forall i :: 0 <= i < |records| ==> rs[i] == records[i];
    assert rs[|records|] == EntryRow(e);
  }

  /** Appending an entry that is at or above every entry keeps a sequence sorted. */
  lemma SortedAppend(s: seq<LogEntry>, e: LogEntry)
    requires Sorted(s)
    requires |s| > 0 ==> Le(s[|s| - 1], e)
    ensures Sorted(s + [e])
  {
    var t := s + [e];
    forall i, j | 0 <= i < j < |t|
      ensures Le(t[i], t[j])
    {
      if j == |s| && i < |s| - 1 {
        assert Le(s[i], s[|s| - 1]);
      }
    }
  }

  /**
   * A file whose records are those of a loaded file plus one entry row, for an entry at
   * or above every loaded entry, loads as the old entries followed by that entry.
   */
  lemma ReloadAppended<E>(file: seq<Row>, file': seq<Row>, decode: Row -> Result<LogEntry, E>, e: LogEntry)
    requires Load(file, decode).Success?
    requires Records(file') == Records(file) + [EntryRow(e)]
    requires RoundTrips(decode, e)
    requires Sorted(Load(file, decode).value.entries + [e])
    ensures Load(file', decode) == Success(Log(file', Load(file, decode).value.entries + [e]))
  {
    var entries := Load(file, decode).value.entries;
    var es := DecodeAll(Records(file), decode).value;
    assert StablySorts(es, entries);
    DecodeAppend(Records(file), decode, e);
    forall k
      ensures Filter(entries + [e], k) == Filter(es + [e], k)
    {
      FilterConcat(entries, [e], k);
      FilterConcat(es, [e], k);
    }
    AnyStableSortIsSort(es + [e], entries + [e]);
  }

  /** On an empty log the added entry is the only one the next load finds. */
  lemma AddToEmptyThenReload<E>(file: seq<Row>, decode: Row -> Result<LogEntry, E>, m: string)
    requires Load(file, decode).Success?
    requires |file| != 1
    requires |Load(file, decode).value.entries| == 0
    requires RoundTrips(decode, LogEntry(Some(1), Some(m)))
    ensures var saved := Save(Load(file, decode).value, FromMessage(m));
      Load(saved.file, decode) == Success(Log(saved.file, [LogEntry(Some(1), Some(m))]))
  {
    var log := Load(file, decode).value;
    var e := LogEntry(Some(1), Some(m));
    var saved := Save(log, FromMessage(m));
    assert |Records(file)| == 0;
    assert file == [];
    assert saved.file == [HeaderRow, EntryRow(e)];
    assert Records(saved.file) == Records(file) + [EntryRow(e)];
    assert log.entries + [e] == [e];
    ReloadAppended(file, saved.file, decode, e);
  }

  /** On a non-empty log the added entry comes after every entry of the previous load. */
  lemma AddToNonEmptyThenReload<E>(file: seq<Row>, decode: Row -> Result<LogEntry, E>, m: string)
    requires Load(file, decode).Success?
    requires |Load(file, decode).value.entries| > 0
    requires CanAssign(Load(file, decode).value.entries)
    requires RoundTrips(decode, Assign(Load(file, decode).value.entries, FromMessage(m)))
    ensures var log := Load(file, decode).value;
      var saved := Save(log, FromMessage(m));
      Load(saved.file, decode)
        == Success(Log(saved.file, log.entries + [Assign(log.entries, FromMessage(m))]))
  {
    var log := Load(file, decode).value;
    var saved := Save(log, FromMessage(m));
    var e := Assign(log.entries, FromMessage(m));
    assert |file| > 1;
    assert saved.file == file + [EntryRow(e)];
    assert Records(saved.file) == Records(file) + [EntryRow(e)];
    var last := log.entries[|log.entries| - 1];
    assert Le(last, e) by {
      if last.index.None? {
        assert e == FromMessage(m);
      }
    }
    SortedAppend(log.entries, e);
    ReloadAppended(file, saved.file, decode, e);
  }

  /**
   * Adding a task and loading the file again gives the entries loaded before with the new
   * entry at the end: the entry `save` wrote, whose index is 1 on an empty log and one past
   * the last index otherwise, is at or above every other entry, so the sort leaves it last.
   * The file must not be a lone header line (see `HeaderOnlyFileBreaksOnAdd`).
   */
  lemma AddThenReload<E>(file: seq<Row>, decode: Row -> Result<LogEntry, E>, log: Log, m: string)
    requires |file| != 1
    requires Load(file, decode) == Success(log)
    requires CanAssign(log.entries)
    requires RoundTrips(decode, Assign(log.entries, FromMessage(m)))
    ensures var saved := Save(log, FromMessage(m));
      Load(saved.file, decode) == Success(Log(saved.file, log.entries + [Assign(log.entries, FromMessage(m))]))
  {
    if |log.entries| == 0 {
      var e := LogEntry(Some(1), Some(m));
      assert Assign(log.entries, FromMessage(m)) == e;
      assert log.entries + [e] == [e];
      AddToEmptyThenReload(file, decode, m);
    } else {
      AddToNonEmptyThenReload(file, decode, m);
    }
  }

  /**
   * `save` decides on the header from the entries in memory, not from the file. A file
   * holding only the header line loads as an empty log; adding a task then writes a
   * second header, which the next load reads as a record. The header's `index` field is
   * not a number, so that load fails.
   */
  lemma HeaderOnlyFileBreaksOnAdd<E>(decode: Row -> Result<LogEntry, E>, m: string)
    requires decode(HeaderRow).Failure?
    ensures Load([HeaderRow], decode) == Success(Log([HeaderRow], []))
    ensures Save(Log([HeaderRow], []), FromMessage(m)).file
      == [HeaderRow, HeaderRow, EntryRow(LogEntry(Some(1), Some(m)))]
    ensures Load(Save(Log([HeaderRow], []), FromMessage(m)).file, decode).Failure?
  {
    var file := Save(Log([HeaderRow], []), FromMessage(m)).file;
    assert Records(file)[0] == HeaderRow;
  }

  /** Removing a task leaves the next load exactly as the last one. */
  lemma DeleteThenReload<E>(file: seq<Row>, decode: Row -> Result<LogEntry, E>, i: I8)
    requires Load(file, decode).Success?
    ensures Load(Delete(Load(file, decode).value, FromIndex(i)).file, decode) == Load(file, decode)
  {
  }
}
