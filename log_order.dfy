/**
 * The log entries of src/main.ts and the order `recordTimestamp` keeps them
 * in: `logs.sort((a, b) => a.timestamp - b.timestamp)`, a stable sort by
 * timestamp. `StableSort` is one stable sort (insertion from the back);
 * `StableSortUnique` shows that every sorted rearrangement that keeps the
 * order among equal timestamps is this one, so it stands for the library's
 * sort whatever algorithm that uses.
 */
module LogOrder {

  /** A recorded moment: milliseconds since the epoch and the memo label. */
  datatype LogEntry = LogEntry(timestamp: int, memo: string)

  predicate Sorted(s: seq<LogEntry>)
  {
    forall i, j :: 0 <= i < j < |s| ==> s[i].timestamp <= s[j].timestamp
  }

  /** The entries with timestamp t, in the order they appear in s. */
  function Ties(s: seq<LogEntry>, t: int): seq<LogEntry>
  {
    if s == [] then []
    else Ties(s[..|s| - 1], t) + (if s[|s| - 1].timestamp == t then [s[|s| - 1]] else [])
  }

  /** Where `Insert` puts e: after the last entry whose timestamp is at most e's. */
  function InsertionPoint(s: seq<LogEntry>, t: int): (k: nat)
    ensures k <= |s|
    ensures forall j :: k <= j < |s| ==> s[j].timestamp > t
    ensures 0 < k ==> s[k - 1].timestamp <= t
  {
    if s == [] then 0
    else if s[|s| - 1].timestamp <= t then |s|
    else InsertionPoint(s[..|s| - 1], t)
  }

  /** One insertion step of the sort: e goes after every entry not later than it. */
  function Insert(s: seq<LogEntry>, e: LogEntry): (r: seq<LogEntry>)
    ensures |r| == |s| + 1
  {
    if s == [] then [e]
    else if s[|s| - 1].timestamp <= e.timestamp then s + [e]
    else Insert(s[..|s| - 1], e) + [s[|s| - 1]]
  }

  /** Insert adds e and loses nothing: the result is a permutation of s with e added. */
  lemma {:induction false} InsertPermutes(s: seq<LogEntry>, e: LogEntry)
    ensures multiset(Insert(s, e)) == multiset(s) + multiset{e}
  {
    if s != [] && s[|s| - 1].timestamp > e.timestamp {
      var init, last := s[..|s| - 1], s[|s| - 1];
      assert s == init + [last];
      InsertPermutes(init, e);
      assert Insert(s, e) == Insert(init, e) + [last];
    }
  }

  /** The entries of Insert(s, e) are those of s and e. */
  lemma {:induction false} InsertMembers(s: seq<LogEntry>, e: LogEntry, x: LogEntry)
    ensures x in Insert(s, e) <==> x in s || x == e
  {
    if s != [] && s[|s| - 1].timestamp > e.timestamp {
      var init, last := s[..|s| - 1], s[|s| - 1];
      assert s == init + [last];
      InsertMembers(init, e, x);
      assert Insert(s, e) == Insert(init, e) + [last];
    }
  }

  /** Insert puts e at the insertion point and leaves the other entries in their order. */
  lemma {:induction false} InsertShape(s: seq<LogEntry>, e: LogEntry)
    ensures var k := InsertionPoint(s, e.timestamp); Insert(s, e) == s[..k] + [e] + s[k..]
  {
    if s == [] {
      assert Insert(s, e) == [e];
      assert InsertionPoint(s, e.timestamp) == 0;
    } else if s[|s| - 1].timestamp <= e.timestamp {
      assert Insert(s, e) == s + [e];
      assert InsertionPoint(s, e.timestamp) == |s|;
      assert s[..|s|] == s && s[|s|..] == [];
    } else {
      var init, last := s[..|s| - 1], s[|s| - 1];
      var k := InsertionPoint(init, e.timestamp);
      assert InsertionPoint(s, e.timestamp) == k;
      assert Insert(s, e) == Insert(init, e) + [last];
      InsertShape(init, e);
      assert s[..k] == init[..k];
      assert s[k..] == init[k..] + [last];
      calc {
        Insert(s, e);
        (init[..k] + [e] + init[k..]) + [last];
        s[..k] + [e] + (init[k..] + [last]);
      }
    }
  }

  /** Stable sort by timestamp: sort all but the last entry, then insert the last. */
  function StableSort(s: seq<LogEntry>): (r: seq<LogEntry>)
    ensures Sorted(r)
    ensures multiset(r) == multiset(s)
  {
    if s == [] then []
    else
      var init := s[..|s| - 1];
      assert s == init + [s[|s| - 1]];
      InsertKeepsSorted(StableSort(init), s[|s| - 1]);
      InsertPermutes(StableSort(init), s[|s| - 1]);
      Insert(StableSort(init), s[|s| - 1])
  }

  /** Inserting into a sorted log keeps it sorted. */
  lemma {:induction false} InsertKeepsSorted(s: seq<LogEntry>, e: LogEntry)
    requires Sorted(s)
    ensures Sorted(Insert(s, e))
  {
    if s != [] && s[|s| - 1].timestamp > e.timestamp {
      var init, last := s[..|s| - 1], s[|s| - 1];
      InsertKeepsSorted(init, e);
      var r := Insert(init, e);
      assert Insert(s, e) == r + [last];
      forall x | x in r
        ensures x.timestamp <= last.timestamp
      {
        InsertMembers(init, e, x);
      }
    }
  }

  /** In a sorted log the insertion point separates the entries not later than t from the later ones. */
  lemma InsertionPointSplits(s: seq<LogEntry>, t: int)
    requires Sorted(s)
    ensures var k := InsertionPoint(s, t);
      && (forall j :: 0 <= j < k ==> s[j].timestamp <= t)
      && (forall j :: k <= j < |s| ==> s[j].timestamp > t)
  {
  }

  lemma {:induction false} TiesAppend(s: seq<LogEntry>, e: LogEntry, t: int)
    ensures Ties(s + [e], t) == Ties(s, t) + (if e.timestamp == t then [e] else [])
  {
    assert (s + [e])[..|s + [e]| - 1] == s;
  }

  /** Inserting e adds e at the end of its own timestamp's ties and changes no other ties. */
  lemma {:induction false} TiesInsert(s: seq<LogEntry>, e: LogEntry, t: int)
    ensures Ties(Insert(s, e), t) == Ties(s, t) + (if e.timestamp == t then [e] else [])
  {
    if s == [] {
      assert Insert(s, e) == s + [e];
      TiesAppend(s, e, t);
    } else if s[|s| - 1].timestamp <= e.timestamp {
      assert Insert(s, e) == s + [e];
      TiesAppend(s, e, t);
    } else {
      var init, last := s[..|s| - 1], s[|s| - 1];
      assert s == init + [last];
      assert Insert(s, e) == Insert(init, e) + [last];
      TiesInsert(init, e, t);
      TiesAppend(Insert(init, e), last, t);
      TiesAppend(init, last, t);
    }
  }

  /** The sort keeps entries with equal timestamps in their original order: it is stable. */
  lemma {:induction false} StableSortKeepsTies(s: seq<LogEntry>, t: int)
    ensures Ties(StableSort(s), t) == Ties(s, t)
  {
    if s != [] {
      var init, last := s[..|s| - 1], s[|s| - 1];
      StableSortKeepsTies(init, t);
      TiesInsert(StableSort(init), last, t);
    }
  }

  /** Sorting an already sorted log changes nothing. */
  lemma {:induction false} SortedIsFixed(s: seq<LogEntry>)
    requires Sorted(s)
    ensures StableSort(s) == s
  {
    if s != [] {
      var init, last := s[..|s| - 1], s[|s| - 1];
      assert s == init + [last];
      SortedDropLast(s);
      SortedIsFixed(init);
      assert StableSort(s) == Insert(init, last);
      if init != [] {
        assert init[|init| - 1] == s[|s| - 2];
      }
      assert Insert(init, last) == init + [last];
    }
  }

  /** An entry is a tie of t exactly when it occurs in s with timestamp t. */
  lemma {:induction false} TiesMembers(s: seq<LogEntry>, t: int, x: LogEntry)
    ensures x in Ties(s, t) <==> x in s && x.timestamp == t
  {
    if s != [] {
      var init := s[..|s| - 1];
      assert s == init + [s[|s| - 1]];
      TiesMembers(init, t, x);
    }
  }

  /** The last entry of a sorted log has the largest timestamp. */
  lemma LastIsLatest(s: seq<LogEntry>, x: LogEntry)
    requires Sorted(s) && x in s
    ensures x.timestamp <= s[|s| - 1].timestamp
  {
  }

  /** A non-empty log has at least one tie at the timestamp of its last entry. */
  lemma LastHasTies(s: seq<LogEntry>)
    requires s != []
    ensures Ties(s, s[|s| - 1].timestamp) != []
  {
  }

  /**
   * Two sorted logs whose ties agree at the timestamps of their last entries
   * end at the same timestamp.
   */
  lemma SameLastTimestamp(a: seq<LogEntry>, b: seq<LogEntry>)
    requires Sorted(a) && Sorted(b) && a != [] && b != []
    requires Ties(a, a[|a| - 1].timestamp) == Ties(b, a[|a| - 1].timestamp)
    requires Ties(a, b[|b| - 1].timestamp) == Ties(b, b[|b| - 1].timestamp)
    ensures a[|a| - 1].timestamp == b[|b| - 1].timestamp
  {
    var la, lb := a[|a| - 1], b[|b| - 1];
    TiesMembers(a, la.timestamp, la);
    TiesMembers(b, la.timestamp, la);
    TiesMembers(a, lb.timestamp, lb);
    TiesMembers(b, lb.timestamp, lb);
    LastIsLatest(a, lb);
    LastIsLatest(b, la);
  }

  /** Two logs ending at the same timestamp, with the same ties there, end in the same entry. */
  lemma SameLastEntry(a: seq<LogEntry>, b: seq<LogEntry>)
    requires a != [] && b != []
    requires a[|a| - 1].timestamp == b[|b| - 1].timestamp
    requires Ties(a, a[|a| - 1].timestamp) == Ties(b, a[|a| - 1].timestamp)
    ensures a[|a| - 1] == b[|b| - 1]
  {
    var t0 := a[|a| - 1].timestamp;
    assert Ties(a, t0) == Ties(a[..|a| - 1], t0) + [a[|a| - 1]];
    assert Ties(b, t0) == Ties(b[..|b| - 1], t0) + [b[|b| - 1]];
  }

  /** Equal sequences with the same ending are equal once that ending is removed. */
  lemma CancelSuffix(x: seq<LogEntry>, y: seq<LogEntry>, z: seq<LogEntry>)
    requires x + z == y + z
    ensures x == y
  {
    assert x == (x + z)[..|x|];
    assert y == (y + z)[..|y|];
  }

  /** Dropping the same last entry from two logs with the same ties at t leaves the same ties at t. */
  lemma DropLastKeepsTies(a: seq<LogEntry>, b: seq<LogEntry>, t: int)
    requires a != [] && b != [] && a[|a| - 1] == b[|b| - 1]
    requires Ties(a, t) == Ties(b, t)
    ensures Ties(a[..|a| - 1], t) == Ties(b[..|b| - 1], t)
  {
    var last := a[|a| - 1];
    var extra := if last.timestamp == t then [last] else [];
    assert Ties(a, t) == Ties(a[..|a| - 1], t) + extra;
    assert Ties(b, t) == Ties(b[..|b| - 1], t) + extra;
    CancelSuffix(Ties(a[..|a| - 1], t), Ties(b[..|b| - 1], t), extra);
  }

  /** Dropping the last entry of a sorted log leaves it sorted. */
  lemma SortedDropLast(s: seq<LogEntry>)
    requires Sorted(s) && s != []
    ensures Sorted(s[..|s| - 1])
  {
    var init := s[..|s| - 1];
    forall i, j | 0 <= i < j < |init|
      ensures init[i].timestamp <= init[j].timestamp
    {
      assert init[i] == s[i] && init[j] == s[j];
    }
  }

  /** Two non-empty sequences with the same entries before the last and the same last entry are equal. */
  lemma SameInitAndLast(a: seq<LogEntry>, b: seq<LogEntry>)
    requires a != [] && b != []
    requires a[..|a| - 1] == b[..|b| - 1] && a[|a| - 1] == b[|b| - 1]
    ensures a == b
  {
    assert a == a[..|a| - 1] + [a[|a| - 1]];
    assert b == b[..|b| - 1] + [b[|b| - 1]];
  }

  /** Two sorted logs with the same ties at every timestamp are equal. */
  lemma {:induction false} SortedTiesDetermine(a: seq<LogEntry>, b: seq<LogEntry>)
    requires Sorted(a) && Sorted(b)
    requires forall t :: Ties(a, t) == Ties(b, t)
    ensures a == b
    decreases |a| + |b|
  {
    if a == [] || b == [] {
      if a != [] {
        LastHasTies(a);
      } else if b != [] {
        LastHasTies(b);
      }
    } else {
      SameLastTimestamp(a, b);
      SameLastEntry(a, b);
      var a', b' := a[..|a| - 1], b[..|b| - 1];
      forall t
        ensures Ties(a', t) == Ties(b', t)
      {
        DropLastKeepsTies(a, b, t);
      }
      SortedDropLast(a);
      SortedDropLast(b);
      SortedTiesDetermine(a', b');
      SameInitAndLast(a, b);
    }
  }

  /**
   * Any sorted rearrangement of s that keeps the order of entries with equal
   * timestamps is StableSort(s): every stable sort by timestamp agrees with it.
   */
  lemma StableSortUnique(s: seq<LogEntry>, r: seq<LogEntry>)
    requires Sorted(r)
    requires forall t :: Ties(r, t) == Ties(s, t)
    ensures r == StableSort(s)
  {
    forall t
      ensures Ties(StableSort(s), t) == Ties(r, t)
    {
      StableSortKeepsTies(s, t);
    }
    SortedTiesDetermine(StableSort(s), r);
  }

  /**
   * Recording into a sorted log: the result is the old log with the new entry
   * placed after every entry whose timestamp is not later than its own
   * (so after every equal one) and before every later one.
   */
  lemma AppendThenSort(s: seq<LogEntry>, e: LogEntry)
    requires Sorted(s)
    ensures var k := InsertionPoint(s, e.timestamp);
      && StableSort(s + [e]) == s[..k] + [e] + s[k..]
      && (forall j :: 0 <= j < k ==> s[j].timestamp <= e.timestamp)
      && (forall j :: k <= j < |s| ==> s[j].timestamp > e.timestamp)
  {
    assert (s + [e])[..|s + [e]| - 1] == s;
    SortedIsFixed(s);
    InsertShape(s, e);
    InsertionPointSplits(s, e.timestamp);
  }
}
