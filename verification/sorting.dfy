/**
 * `Vec::sort` on log entries: a stable sort by index. It is modelled by an insertion sort;
 * `StableSortUnique` shows that every stable sort yields the same sequence, so the model
 * does not depend on the algorithm the standard library uses.
 */
module Sorting {
  import opened Results
  import opened Decimal
  import opened Entry

  /** Non-decreasing by index; equal indices may repeat. */
  predicate Sorted(s: seq<LogEntry>) {
    forall i, j :: 0 <= i < j < |s| ==> Le(s[i], s[j])
  }

  /** The entries of `s` whose index is `k`, in their order in `s`. */
  function Filter(s: seq<LogEntry>, k: Option<I8>): (r: seq<LogEntry>)
    ensures |r| <= |s|
    ensures forall x :: x in r ==> x in s && x.index == k
    decreases |s|
  {
    if |s| == 0 then []
    else if s[0].index == k then [s[0]] + Filter(s[1..], k)
    else Filter(s[1..], k)
  }

  /** `r` is what a stable sort of `s` must produce. */
  ghost predicate StablySorts(s: seq<LogEntry>, r: seq<LogEntry>) {
    && Sorted(r)
    && multiset(r) == multiset(s)
    && forall k :: Filter(r, k) == Filter(s, k)
  }

  lemma {:induction false} FilterConcat(a: seq<LogEntry>, b: seq<LogEntry>, k: Option<I8>)
    ensures Filter(a + b, k) == Filter(a, k) + Filter(b, k)
    decreases |a|
  {
    if |a| == 0 {
      assert a + b == b;
    } else {
      assert (a + b)[0] == a[0];
      assert (a + b)[1..] == a[1..] + b;
      FilterConcat(a[1..], b, k);
    }
  }

  /**
   * Places `e` in front of the first entry of `s` whose index is not below its own, so
   * `e` lands after the smaller indices and before the equal ones.
   */
  function Insert(e: LogEntry, s: seq<LogEntry>): (r: seq<LogEntry>)
    requires Sorted(s)
    ensures Sorted(r)
    ensures multiset(r) == multiset(s) + multiset{e}
    decreases |s|
  {
    if |s| == 0 then
      [e]
    else if Le(e, s[0]) then
      InsertFrontSorted(e, s);
      [e] + s
    else
      var t := Insert(e, s[1..]);
      InsertBehindSorted(e, s, t);
      [s[0]] + t
  }

  /** The last case of `Insert`: `s[0]` stays in front of the insertion into the rest. */
  lemma InsertBehindSorted(e: LogEntry, s: seq<LogEntry>, t: seq<LogEntry>)
    requires Sorted(s) && |s| > 0 && !Le(e, s[0])
    requires Sorted(t) && multiset(t) == multiset(s[1..]) + multiset{e}
    ensures Sorted([s[0]] + t)
    ensures multiset([s[0]] + t) == multiset(s) + multiset{e}
  {
    assert s == [s[0]] + s[1..];
    assert forall x :: x in t ==> Le(s[0], x) by {
      forall x | x in t
        ensures Le(s[0], x)
      {
        assert x in multiset(t);
        if x != e {
          assert x in multiset(s[1..]);
          var j :| 0 <= j < |s[1..]| && s[1..][j] == x;
          assert s[j + 1] == x;
        }
      }
    }
    assert forall j :: 0 <= j < |t| ==> t[j] in t;
  }

  /** Inserting `e` puts it in front of the entries of `s` with its own index. */
  lemma {:induction false} InsertFilter(e: LogEntry, s: seq<LogEntry>, k: Option<I8>)
    requires Sorted(s)
    ensures Filter(Insert(e, s), k) == if e.index == k then [e] + Filter(s, k) else Filter(s, k)
    decreases |s|
  {
    if |s| > 0 && !Le(e, s[0]) {
      InsertFilter(e, s[1..], k);
      var t := Insert(e, s[1..]);
      assert ([s[0]] + t)[1..] == t;
      assert s[0].index != e.index;
    }
  }

  /** The first case of `Insert`: an entry at or below the head of a sorted sequence goes in front. */
  lemma InsertFrontSorted(e: LogEntry, s: seq<LogEntry>)
    requires Sorted(s) && |s| > 0 && Le(e, s[0])
    ensures Sorted([e] + s)
  {
    assert forall j :: 0 < j < |s| ==> Le(s[0], s[j]);
  }

  /** Sorts `s` stably by index: the head of the input goes in front of its equals. */
  function Sort(s: seq<LogEntry>): (r: seq<LogEntry>)
    ensures StablySorts(s, r)
    decreases |s|
  {
    if |s| == 0 then []
    else
      var t := Sort(s[1..]);
      assert s == [s[0]] + s[1..];
      assert forall k :: Filter(Insert(s[0], t), k) == Filter(s, k) by {
        forall k
          ensures Filter(Insert(s[0], t), k) == Filter(s, k)
        {
          InsertFilter(s[0], t, k);
        }
      }
      Insert(s[0], t)
  }

  /** A non-empty sequence has an entry holding its head's index. */
  lemma HeadInOwnFilter(s: seq<LogEntry>)
    ensures |s| > 0 ==> Filter(s, s[0].index) != []
  {
  }

  /** A sorted sequence starts with its least index. */
  lemma HeadIsLeast(s: seq<LogEntry>, x: LogEntry)
    requires Sorted(s) && |s| > 0 && x in s
    ensures Rank(s[0].index) <= Rank(x.index)
  {
    var j :| 0 <= j < |s| && s[j] == x;
    if j > 0 {
      assert Le(s[0], s[j]);
    }
  }

  /**
   * Two sorted sequences that agree on the entries of every index, in order, are equal:
   * the result of a stable sort is determined by its input alone.
   */
  lemma {:induction false} StableSortUnique(a: seq<LogEntry>, b: seq<LogEntry>)
    requires Sorted(a) && Sorted(b)
    requires forall k :: Filter(a, k) == Filter(b, k)
    ensures a == b
    decreases |a|
  {
    HeadInOwnFilter(a);
    HeadInOwnFilter(b);
    if |a| == 0 || |b| == 0 {
      assert |a| == 0 && |b| == 0;
    } else {
      var ka := a[0].index;
      var kb := b[0].index;
      assert Filter(a, ka)[0] == a[0];
      assert a[0] in Filter(b, ka);
      HeadIsLeast(b, a[0]);
      assert Filter(b, kb)[0] == b[0];
      assert b[0] in Filter(a, kb);
      HeadIsLeast(a, b[0]);
      RankInjective(ka, kb);
      assert a[0] == b[0];
      forall k
        ensures Filter(a[1..], k) == Filter(b[1..], k)
      {
        assert Filter(a, k) == Filter(b, k);
        if ka == k {
          assert Filter(a, k) == [a[0]] + Filter(a[1..], k);
          assert Filter(b, k) == [b[0]] + Filter(b[1..], k);
          assert Filter(a, k)[1..] == Filter(a[1..], k);
          assert Filter(b, k)[1..] == Filter(b[1..], k);
        }
      }
      StableSortUnique(a[1..], b[1..]);
      assert a == [a[0]] + a[1..];
      assert b == [b[0]] + b[1..];
    }
  }

  /** Whatever stable sort the standard library runs, its result is `Sort(s)`. */
  lemma AnyStableSortIsSort(s: seq<LogEntry>, r: seq<LogEntry>)
    requires Sorted(r)
    requires forall k :: Filter(r, k) == Filter(s, k)
    ensures r == Sort(s)
  {
    StableSortUnique(r, Sort(s));
  }

  /** Sorting leaves an already sorted sequence as it is. */
  lemma SortSorted(s: seq<LogEntry>)
    requires Sorted(s)
    ensures Sort(s) == s
  {
    AnyStableSortIsSort(s, s);
  }

  /** The four records of `SortExample`. */
  predicate ExampleEntries(e1: LogEntry, e2: LogEntry, e3: LogEntry, e3': LogEntry) {
    && e1 == LogEntry(Some(1), Some("a"))
    && e2 == LogEntry(Some(2), Some("b"))
    && e3 == LogEntry(Some(3), Some("c"))
    && e3' == LogEntry(Some(3), Some("d"))
  }

  /** The first two steps of `SortExample`: sorting the last two records, then three. */
  lemma SortExampleTail(e1: LogEntry, e2: LogEntry, e3: LogEntry, e3': LogEntry)
    requires ExampleEntries(e1, e2, e3, e3')
    ensures Sort([e1, e3', e2]) == [e1, e2, e3']
  {
    assert Sort([e2]) == [e2] by {
      assert [e2][1..] == [];
      assert Sort([e2][1..]) == [];
    }
    assert Sort([e3', e2]) == [e2, e3'] by {
      assert [e3', e2][1..] == [e2];
      assert !Le(e3', e2);
      assert [e2][1..] == [];
    }
    assert [e1, e3', e2][1..] == [e3', e2];
    assert Le(e1, e2);
  }

  /** The last step of `SortExample`: the first record goes behind the smaller ones. */
  lemma InsertExample(e1: LogEntry, e2: LogEntry, e3: LogEntry, e3': LogEntry)
    requires ExampleEntries(e1, e2, e3, e3')
    ensures Insert(e3, [e1, e2, e3']) == [e1, e2, e3, e3']
  {
    assert Insert(e3, [e3']) == [e3, e3'];
    assert [e2, e3'][1..] == [e3'];
    assert Insert(e3, [e2, e3']) == [e2, e3, e3'];
    assert [e1, e2, e3'][1..] == [e2, e3'];
  }

  /** Records stored out of order come back in index order; equal indices keep file order. */
  lemma SortExample(e1: LogEntry, e2: LogEntry, e3: LogEntry, e3': LogEntry)
    requires ExampleEntries(e1, e2, e3, e3')
    ensures Sort([e3, e1, e3', e2]) == [e1, e2, e3, e3']
  {
    SortExampleTail(e1, e2, e3, e3');
    InsertExample(e1, e2, e3, e3');
    assert [e3, e1, e3', e2][1..] == [e1, e3', e2];
  }
}
