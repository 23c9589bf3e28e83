/**
 * `Log::print`: one line per entry, in the order the entries are held. A line is a space,
 * the index left-padded with a zero when it is below 10 (negative indices included), the
 * separator ` | ` and the message. An entry missing its index or its message stops the
 * printing with a panic.
 */
module Render {
  import opened Results
  import opened Decimal
  import opened Entry

  /** The zero that pads indices below 10 to two characters. */
  function Padding(i: I8): string {
    if i < 10 then "0" else ""
  }

  /** The text of the line printed for index `i` and `message`, without its newline. */
  function Line(i: I8, message: string): (line: string)
    ensures |line| >= 2 && line[0] == ' ' && (line[1] == '0' <==> i < 10)
    ensures 0 <= i < 100 ==> |line| == 6 + |message|
    ensures |line| >= |message| && line[|line| - |message|..] == message
  {
    " " + Padding(i) + Show(i) + " | " + message
  }

  /** Position of the first space in `s`, or `|s|` when there is none. */
  function FindSpace(s: string): (p: nat)
    ensures p <= |s|
    ensures p < |s| ==> s[p] == ' '
    ensures forall j :: 0 <= j < p ==> s[j] != ' '
    decreases |s|
  {
    if |s| == 0 then 0
    else if s[0] == ' ' then 0
    else 1 + FindSpace(s[1..])
  }

  /**
   * Splits a line into its index field and its message: the index field runs from the
   * second character to the first space, which must start the separator ` | `, and the
   * message is everything after the separator.
   */
  function SplitLine(line: string): Option<(string, string)> {
    if |line| == 0 || line[0] != ' ' then None
    else
      var rest := line[1..];
      var p := FindSpace(rest);
      if p + 3 > |rest| || rest[p..p + 3] != " | " then None
      else Some((rest[..p], rest[p + 3..]))
  }

  /** The index field without its padding: a leading zero on a field of two or more characters. */
  function Unpadded(field: string): string {
    if |field| >= 2 && field[0] == '0' then field[1..] else field
  }

  /** Reads a printed line back into its index and message. */
  function ParseLine(line: string): Option<(int, string)> {
    match SplitLine(line)
    case None => None
    case Some((field, message)) =>
      var digits := Unpadded(field);
      if Numeral(digits) then Some((Parse(digits), message)) else None
  }

  lemma {:induction false} FindSpaceConcat(a: string, b: string)
    requires forall j :: 0 <= j < |a| ==> a[j] != ' '
    requires |b| > 0 && b[0] == ' '
    ensures FindSpace(a + b) == |a|
    decreases |a|
  {
    if |a| == 0 {
      assert a + b == b;
    } else {
      assert (a + b)[1..] == a[1..] + b;
      FindSpaceConcat(a[1..], b);
    }
  }

  /** The index field of a line holds no space, and without its padding it is `Show(i)`. */
  lemma IndexField(i: I8)
    ensures forall j :: 0 <= j < |Padding(i) + Show(i)| ==> (Padding(i) + Show(i))[j] != ' '
    ensures Unpadded(Padding(i) + Show(i)) == Show(i)
  {
    var field := Padding(i) + Show(i);
    if i < 10 {
      assert field[1..] == Show(i);
    } else {
      assert field == Show(i);
    }
  }

  /** How `SplitLine` cuts a line whose index field holds no space. */
  lemma SplitLineOf(field: string, message: string)
    requires forall j :: 0 <= j < |field| ==> field[j] != ' '
    ensures SplitLine(" " + field + " | " + message) == Some((field, message))
  {
    var line := " " + field + " | " + message;
    var rest := line[1..];
    assert rest == field + (" | " + message);
    FindSpaceConcat(field, " | " + message);
    assert rest[..|field|] == field;
    assert rest[|field|..|field| + 3] == " | ";
    assert rest[|field| + 3..] == message;
  }

  /** A printed line splits into the padded index field and the message. */
  lemma SplitLineOfLine(i: I8, message: string)
    ensures SplitLine(Line(i, message)) == Some((Padding(i) + Show(i), message))
  {
    var field := Padding(i) + Show(i);
    IndexField(i);
    SplitLineOf(field, message);
    assert Line(i, message) == " " + field + " | " + message;
  }

  /** The padded index field, unpadded and parsed, gives the index back. */
  lemma IndexFieldParses(i: I8)
    ensures Numeral(Unpadded(Padding(i) + Show(i)))
    ensures Parse(Unpadded(Padding(i) + Show(i))) == i
  {
    IndexField(i);
    ParseShow(i);
  }

  /** A printed line determines the index and the message it was printed from. */
  lemma LineRoundTrip(i: I8, message: string)
    ensures ParseLine(Line(i, message)) == Some((i, message))
  {
    SplitLineOfLine(i, message);
    IndexFieldParses(i);
  }

  /** Different entries never print as the same line. */
  lemma LineInjective(i: I8, m: string, j: I8, n: string)
    ensures Line(i, m) == Line(j, n) ==> i == j && m == n
  {
    LineRoundTrip(i, m);
    LineRoundTrip(j, n);
  }

  /** The lines for indices 1, 12, -5 and 100. */
  lemma LineExamples()
    ensures Line(1, "buy milk") == " 01 | buy milk"
    ensures Line(12, "b") == " 12 | b"
    ensures Line(-5, "c") == " 0-5 | c"
    ensures Line(100, "d") == " 100 | d"
  {
    assert ShowNat(1) == "1";
    assert ShowNat(12) == "12";
    assert ShowNat(5) == "5";
    assert ShowNat(100) == "100";
  }

  /** An entry `print` can show: both fields present. */
  predicate Printable(e: LogEntry) {
    e.index.Some? && e.message.Some?
  }

  /** The text `print` panics with at an entry it cannot show; the index is checked first. */
  function PanicMessage(e: LogEntry): string
    requires !Printable(e)
  {
    if e.index.None? then "bad index" else "bad message"
  }

  /** What `print` writes, and the panic message it stops with, if any. */
  datatype Output = Output(lines: seq<string>, panic: Option<string>)

  /**
   * `Log::print`: a line per entry in order; at the first entry without an index or a
   * message it panics, after the lines of the entries before it.
   */
  function Print(entries: seq<LogEntry>): (o: Output)
    ensures o.panic.Some? <==> exists i :: 0 <= i < |entries| && !Printable(entries[i])
    ensures o.panic.None? ==> |o.lines| == |entries|
    ensures o.panic.Some? ==>
      && |o.lines| < |entries|
      && !Printable(entries[|o.lines|])
      && o.panic.value == PanicMessage(entries[|o.lines|])
    ensures forall i :: 0 <= i < |o.lines| ==>
      Printable(entries[i]) && o.lines[i] == Line(entries[i].index.value, entries[i].message.value)
    decreases |entries|
  {
    if |entries| == 0 then
      Output([], None)
    else
      var e := entries[0];
      if !Printable(e) then
        Output([], Some(PanicMessage(e)))
      else
        var tail := Print(entries[1..]);
        var o := Output([Line(e.index.value, e.message.value)] + tail.lines, tail.panic);
        PrintCons(entries, tail, o);
        o
  }

  /**
   * The step of `Print` past a printable head: the head's line goes in front, and a panic,
   * if any, comes from the tail, one position further on in `entries`.
   */
  lemma PrintCons(entries: seq<LogEntry>, tail: Output, o: Output)
    requires |entries| > 0 && Printable(entries[0])
    requires tail.panic.Some? <==> exists i :: 0 <= i < |entries| - 1 && !Printable(entries[1..][i])
    requires tail.panic.None? ==> |tail.lines| == |entries| - 1
    requires tail.panic.Some? ==>
      && |tail.lines| < |entries| - 1
      && !Printable(entries[1..][|tail.lines|])
      && tail.panic.value == PanicMessage(entries[1..][|tail.lines|])
    requires forall i :: 0 <= i < |tail.lines| ==>
      Printable(entries[1..][i])
      && tail.lines[i] == Line(entries[1..][i].index.value, entries[1..][i].message.value)
    requires o == Output([Line(entries[0].index.value, entries[0].message.value)] + tail.lines, tail.panic)
    ensures o.panic.Some? <==> exists i :: 0 <= i < |entries| && !Printable(entries[i])
    ensures o.panic.None? ==> |o.lines| == |entries|
    ensures o.panic.Some? ==>
      && |o.lines| < |entries|
      && !Printable(entries[|o.lines|])
      && o.panic.value == PanicMessage(entries[|o.lines|])
    ensures forall i :: 0 <= i < |o.lines| ==>
      Printable(entries[i]) && o.lines[i] == Line(entries[i].index.value, entries[i].message.value)
  {
    assert forall i :: 1 <= i < |entries| ==> entries[i] == entries[1..][i - 1];
  }

  /** Entries with a missing index or message stop `print` with the matching text. */
  lemma PrintPanicExamples(m: string)
    ensures Print([LogEntry(None, None)]) == Output([], Some("bad index"))
    ensures Print([LogEntry(Some(1), Some(m)), LogEntry(Some(2), None)])
      == Output([Line(1, m)], Some("bad message"))
  {
    var s := [LogEntry(Some(1), Some(m)), LogEntry(Some(2), None)];
    assert s[1..] == [LogEntry(Some(2), None)];
    assert [LogEntry(Some(2), None)][1..] == [];
  }
}
