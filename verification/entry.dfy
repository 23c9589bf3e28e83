/**
 * `LogEntry`: one task of the list. Both fields are optional; a freshly typed task has no
 * index yet, and the entry a removal is asked for has no message. Equality and ordering
 * look at the index only.
 */
module Entry {
  import opened Results
  import opened Decimal

  datatype LogEntry = LogEntry(index: Option<I8>, message: Option<string>)

  /** The error type of the `FromStr` impl; no input produces it. */
  datatype ParseIntError = ParseIntError

  datatype Ordering = Less | Equal | Greater

  /**
   * Position of an index in `Option<i8>`'s derived order, as an integer:
   * `None` sits below every `Some`.
   */
  function Rank(index: Option<I8>): int {
    match index
    case None => MinI8 - 1
    case Some(i) => i
  }

  /** An entry for a new task: a message and no index, so it sorts at or below every entry. */
  function FromMessage(s: string): (e: LogEntry)
    ensures e.message == Some(s)
    ensures forall other :: Le(e, other)
  {
    LogEntry(None, Some(s))
  }

  /** An entry naming a position only; it equals exactly the entries holding that index. */
  function FromIndex(i: I8): (e: LogEntry)
    ensures e.message == None
    ensures forall other :: Equivalent(e, other) <==> other.index == Some(i)
  {
    LogEntry(Some(i), None)
  }

  /** Parsing a task from text never fails: the whole text becomes the message. */
  function FromStr(s: string): (r: Result<LogEntry, ParseIntError>)
    ensures r.Success? && r.value.message == Some(s) && r.value.index == None
  {
    Success(FromMessage(s))
  }

  /** `Ord::cmp`: compares the indices, with `None` before any `Some`. */
  function Compare(a: LogEntry, b: LogEntry): (r: Ordering)
    ensures r == Less <==> Rank(a.index) < Rank(b.index)
    ensures r == Equal <==> Rank(a.index) == Rank(b.index)
    ensures r == Greater <==> Rank(a.index) > Rank(b.index)
  {
    match (a.index, b.index)
    case (None, None) => Equal
    case (None, Some(_)) => Less
    case (Some(_), None) => Greater
    case (Some(x), Some(y)) => if x < y then Less else if x == y then Equal else Greater
  }

  /** `PartialEq::eq`: the messages play no part, and it agrees with `cmp`. */
  predicate Equivalent(a: LogEntry, b: LogEntry)
    ensures Equivalent(a, b) <==> Compare(a, b) == Equal
  {
    a.index == b.index
  }

  /** `a <= b` in the entry order. */
  predicate Le(a: LogEntry, b: LogEntry)
    ensures Le(a, b) <==> Rank(a.index) <= Rank(b.index)
  {
    Compare(a, b) != Greater
  }

  /** Distinct indices have distinct ranks, so the order on indices is antisymmetric. */
  lemma RankInjective(i: Option<I8>, j: Option<I8>)
    ensures Rank(i) == Rank(j) ==> i == j
  {
  }

  /** The laws `Ord` demands: `cmp` is a total order, and flipping the arguments flips it. */
  lemma OrdLaws(a: LogEntry, b: LogEntry, c: LogEntry)
    ensures Compare(a, a) == Equal
    ensures Compare(a, b) == Less <==> Compare(b, a) == Greater
    ensures Compare(a, b) == Equal <==> Compare(b, a) == Equal
    ensures Le(a, b) || Le(b, a)
    ensures Le(a, b) && Le(b, c) ==> Le(a, c)
    ensures Le(a, b) && Le(b, a) ==> a.index == b.index
  {
  }

  /**
   * Consequences of the constructors for equality: two new tasks are equal whatever their
   * messages, a new task is below any indexed entry, and an indexed entry equals any entry
   * with that index.
   */
  lemma ConstructorEquality(s: string, t: string, i: I8)
    ensures Equivalent(FromMessage(s), FromMessage(t))
    ensures Compare(FromMessage(s), FromIndex(i)) == Less
    ensures Equivalent(FromIndex(i), LogEntry(Some(i), Some(s)))
  {
  }
}
