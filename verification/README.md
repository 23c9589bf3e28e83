# td task log — a Dafny model

`td` is a small command-line to-do list. It keeps its tasks in one csv file. Each task is
a `LogEntry` with an optional `i8` index and an optional message. On start the tool loads
the file and sorts the entries by index. It then does one of three things:

- with no arguments, it prints the list;
- `+ <message>` saves a new entry, numbered one past the last entry;
- `- <index>` asks for a removal, which does nothing.

This project models that logic with immutable values and pure functions. The modules are:

- `Results`: `Option` and `Result`.
- `Decimal`: the `i8` range, and the decimal text Rust prints for an integer, with a parser
  that reads it back.
- `Entry`: `LogEntry`, its constructors `from_message`, `from_index` and `FromStr`, and its
  `PartialEq`/`Ord` impls. Both impls compare the index only, with `None` below every `Some`.
- `Sorting`: `Vec::sort` on entries. This is a stable sort by index, written as an insertion
  sort. A uniqueness lemma shows that every stable sort gives the same result.
- `Store`: the `Log` (file rows plus the entries in memory), the decoding loop of
  `read_or_create`, `save`, and `delete`.
- `Render`: the lines `print` writes, and a parser that recovers index and message from a line.
- `Session`: what one invocation leaves for the next, for example adding a task and then
  loading the file again.

The persisted file is a sequence of rows. A row is either the header line or a serialised
entry. The csv text layout is not modelled. Reading a record back is a parameter
`decode: Row -> Result<LogEntry, E>` that may fail. The csv reader always treats the first
line of the file as the header, so the records are the rows after the first.

Behaviours of the code that the model keeps:

- After a load the entries are sorted non-decreasingly. Duplicate indices are kept, in
  file order.
- Indices are `i8`, so negative values load fine. The zero padding applies to them too:
  index -5 prints as ` 0-5 | …`.
- `save` takes `&self`. It appends to the file but does not add the new entry to the entries
  in memory. The new entry becomes visible on the next load (`Session.AddThenReload`).
- If the last loaded entry has no index, `save` keeps the index of the entry it was given.
  For a new task that index is `None`.
- `save` decides whether to write a header from the entries in memory, not from the file.
  Take a file that holds only the header line. It loads as an empty log. Adding a task then
  writes a second header, and the next load fails (`Session.HeaderOnlyFileBreaksOnAdd`).

## Model

| member | source | states |
|---|---|---|
| `Decimal.Show` | src/main.rs:72 | The text printed for an index is a decimal numeral. It starts with a minus sign exactly when the index is negative. It has no leading zero, after the sign included, so zero prints as `0` alone. |
| `Decimal.ParseShow` | src/main.rs:72 | Reading the printed decimal text back gives the index that was printed. |
| `Decimal.ShowInjective` | src/main.rs:72 | Distinct indices print as distinct text. |
| `Entry.FromMessage` | src/main.rs:188-193 | A new task carries the given message and no index. It therefore sorts at or below every entry. |
| `Entry.FromIndex` | src/main.rs:195-200 | An entry built from an index has no message. It is equal to exactly those entries that hold that index. |
| `Entry.FromStr` | src/main.rs:160-165 | Parsing text as an entry never fails. The whole text becomes the message and there is no index. |
| `Entry.Compare` | src/main.rs:181-185 | `cmp` orders entries by index only. It agrees with an integer rank in which `None` is below every `i8`. |
| `Entry.Equivalent` | src/main.rs:167-171 | Equality ignores the message. It holds exactly when `cmp` says `Equal`. |
| `Entry.Le` | src/main.rs:173-177 | `a <= b` holds exactly when a's index rank is at most b's. |
| `Entry.OrdLaws` | src/main.rs:179-185 | `cmp` is a total order on indices. It is reflexive, flips when the arguments swap, and is transitive and total. Two entries that are `<=` each other have the same index. |
| `Entry.ConstructorEquality` | src/main.rs:167-200 | Two new tasks are equal whatever their messages. A new task is below any indexed entry. An indexed entry equals any entry with the same index. |
| `Sorting.Sort` | src/main.rs:88 | The sorted entries are non-decreasing by index and a permutation of the input. For every index, the entries holding it keep their input order (stability). |
| `Sorting.StableSortUnique` | src/main.rs:88 | Two sorted sequences that agree, index by index, on the entries holding each index are equal. So a stable sort's result depends only on its input. |
| `Sorting.AnyStableSortIsSort` | src/main.rs:88 | Any sorted sequence that keeps each index's entries in input order equals the modelled sort. This holds whatever algorithm `Vec::sort` uses. |
| `Sorting.SortSorted` | src/main.rs:88 | Sorting an already sorted sequence leaves it unchanged. |
| `Sorting.SortExample` | src/main.rs:88 | Records stored with indices 3, 1, 3, 2 load as 1, 2, 3, 3. The two entries with index 3 keep their file order. |
| `Store.DecodeAll` | src/main.rs:83-86 | Decoding succeeds exactly when every record decodes, and then yields each record's entry in file order. Otherwise it fails with the error of the first record that fails. |
| `Store.Load` | src/main.rs:79-93 | Loading is all-or-nothing: it succeeds exactly when every record decodes. On failure there is no log, only the first failing record's error. On success the log keeps the file, and its entries are the decoded records, stably sorted by index. |
| `Store.ReadOrCreate` | src/main.rs:81-93 | The decode-and-push loop, with its early return on an error and the sort after it, computes exactly `Load`. |
| `Store.Save` | src/main.rs:116-136 | The entries in memory are unchanged. On an empty log the file gains a header row and then the entry with index 1. Otherwise the file gains only the entry, with index one past the last entry's index, or the given entry's own index when the last index is `None`. The message is always kept. |
| `Store.SaveAssignsMaxPlusOne` | src/main.rs:123-129 | On a sorted log whose last entry has an index, the new index is one past an index the log holds. It is above every entry in the log, so it is the maximum plus one. |
| `Store.Delete` | src/main.rs:138-140 | Delete changes neither the file nor the entries, whatever it is asked to remove. |
| `Render.Line` | src/main.rs:66-72 | A printed line starts with a space, and its second character is the padding zero exactly when the index is below 10, negative indices included. For an index from 0 to 99 the line is exactly six characters longer than its message. The message is the line's suffix. |
| `Render.LineRoundTrip` | src/main.rs:66-72 | Parsing a printed line recovers its index and message, so neither the padding nor the bar separator makes a line ambiguous. |
| `Render.LineInjective` | src/main.rs:66-72 | Two different index/message pairs never print as the same line. |
| `Render.LineExamples` | src/main.rs:66-72 | Indices 1, 12, -5 and 100 print with the index fields `01`, `12`, `0-5` and `100`, each followed by the separator and the message. |
| `Render.Print` | src/main.rs:62-75 | `print` writes one line per entry, in order. It panics exactly when some entry lacks its index or its message. It then panics at the first such entry, after the lines for the entries before it, with "bad index" when the index is missing and "bad message" otherwise. |
| `Render.PrintPanicExamples` | src/main.rs:67-71 | An entry with neither field panics with "bad index", since the index is checked first. An entry with an index but no message panics with "bad message", after the lines of the entries before it. |
| `Session.AddThenReload` | src/main.rs:116-134 | After adding a task, the next load gives the previous entries followed by the entry `save` wrote. This assumes the written row reads back and the file is not a lone header line. |
| `Session.HeaderOnlyFileBreaksOnAdd` | src/main.rs:120-133 | A file holding only a header loads as an empty log. Adding a task writes a second header, and the next load then fails. |
| `Session.DeleteThenReload` | src/main.rs:138-140 | After a removal, the next load gives exactly what the last load gave. |

## Left out

- Command-line parsing (`structopt`), `main`'s dispatch and `process::exit` (src/main.rs:18-52). These are plumbing around the modelled operations.
- `create_if_not_exists` (src/main.rs:96-114): locating the per-user config directory and opening or creating the file are file-system calls into other crates. The model starts from the rows already in the file.
- The csv crate and serde: the text layout of a row, field quoting, and how a field is parsed. Decoding is a parameter, and a written row holds the entry itself. As a result, the round trip of encoding and then decoding one entry is not stated. For instance, an empty message is written as an empty field, and the csv crate's serde support reads an empty field as `None`. `Session.AddThenReload` takes the read-back as a hypothesis instead.
- Store.Save: requires the last index to be below 127. At 127 the source's `last_index + 1` overflows `i8`, which panics in a debug build and wraps to -128 in a release build. Neither outcome is modelled.
- Store.Save: the result of `writer.serialize` is discarded, and the writer flushes when it is dropped. The model assumes the write lands in full and does not model write or flush errors.
- Render.Print: lines are modelled without their trailing newline, and a failure to write to standard output is not modelled.
- Logging through `debug!` and the hand-written `Debug` impl (src/main.rs:151-158): diagnostics only.
- Concurrent access by two processes to the same file: the program makes no promise about it.
