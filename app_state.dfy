/**
 * The page's two mutable lists, `logs` and `memoPatterns` in src/main.ts,
 * and the handlers that change them in place: start-up loading, adding and
 * deleting a memo pattern, recording a timestamp, and the confirmed reset.
 * Storage, rendering and the clock stay outside: saved data arrives as an
 * optional parameter and `Date.now()` as the `now` argument.
 */
module Page {
  import opened Base
  import opened LogOrder
  import opened Patterns

  class AppState {
    /** The recorded entries, kept in timestamp order by RecordTimestamp. */
    var logs: seq<LogEntry>
    /** The labels offered as memo buttons. */
    var memoPatterns: seq<string>

    /**
     * `initialize`: saved logs replace the empty list when present; saved
     * patterns replace the defaults when present.
     */
    constructor (savedLogs: Option<seq<LogEntry>>, savedPatterns: Option<seq<string>>)
      ensures logs == (if savedLogs.Some? then savedLogs.value else [])
      ensures memoPatterns == (if savedPatterns.Some? then savedPatterns.value else DefaultMemoPatterns)
      ensures savedPatterns.None? ==> NoDuplicates(memoPatterns)
    {
      logs := if savedLogs.Some? then savedLogs.value else [];
      memoPatterns := if savedPatterns.Some? then savedPatterns.value else DefaultMemoPatterns;
      new;
      if savedPatterns.None? {
        DefaultPatternsWellFormed(memoPatterns);
      }
    }

    /**
     * `addMemoPattern`: appends the trimmed input when it is non-empty and
     * not yet present; returns what the input field then holds (cleared only
     * when something was added).
     */
    method AddMemoPattern(input: string) returns (inputAfter: string)
      modifies this`memoPatterns
      ensures memoPatterns == AddPattern(old(memoPatterns), input)
      ensures inputAfter == (if |memoPatterns| == |old(memoPatterns)| + 1 then "" else input)
      ensures NoDuplicates(old(memoPatterns)) ==> NoDuplicates(memoPatterns)
    {
      var pattern := Trim(input);
      if pattern != [] && pattern !in memoPatterns {
        memoPatterns := memoPatterns + [pattern];
        inputAfter := "";
      } else {
        inputAfter := input;
      }
      if NoDuplicates(old(memoPatterns)) {
        AddPatternKeepsUnique(old(memoPatterns), input);
      }
    }

    /** `deleteMemoPattern`: `memoPatterns.splice(index, 1)`. */
    method DeleteMemoPattern(index: int)
      modifies this`memoPatterns
      ensures memoPatterns == RemoveAt(old(memoPatterns), index)
      ensures 0 <= index < |old(memoPatterns)| ==> memoPatterns == old(memoPatterns)[..index] + old(memoPatterns)[index + 1..]
      ensures NoDuplicates(old(memoPatterns)) ==> NoDuplicates(memoPatterns)
    {
      var start := SpliceStart(index, |memoPatterns|);
      if start < |memoPatterns| {
        memoPatterns := memoPatterns[..start] + memoPatterns[start + 1..];
      }
      if NoDuplicates(old(memoPatterns)) {
        RemoveAtKeepsUnique(old(memoPatterns), index);
      }
    }

    /**
     * `recordTimestamp`: pushes the entry stamped `now`, then sorts the
     * list stably by timestamp. The result is always sorted and holds the
     * old entries plus the new one; on an already sorted list the new entry
     * lands after every entry with an equal or earlier timestamp and before
     * every later one.
     */
    method RecordTimestamp(now: int, memo: string)
      modifies this`logs
      ensures logs == StableSort(old(logs) + [LogEntry(now, memo)])
      ensures Sorted(logs)
      ensures multiset(logs) == multiset(old(logs)) + multiset{LogEntry(now, memo)}
      ensures Sorted(old(logs)) ==>
        var k := InsertionPoint(old(logs), now);
        logs == old(logs)[..k] + [LogEntry(now, memo)] + old(logs)[k..]
    {
      var entry := LogEntry(now, memo);
      logs := logs + [entry];
      logs := StableSort(logs);
      if Sorted(old(logs)) {
        AppendThenSort(old(logs), entry);
      }
    }

    /** The reset button: the list is emptied only when the user confirms. */
    method ResetLogs(confirmed: bool)
      modifies this`logs
      ensures logs == (if confirmed then [] else old(logs))
    {
      if confirmed {
        logs := [];
      }
    }
  }
}
