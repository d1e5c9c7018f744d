/**
 * The memo pattern list of src/main.ts as values: what `addMemoPattern`
 * (trim, refuse empty or already present, append) and `deleteMemoPattern`
 * (`splice(index, 1)`) make of it, with the properties they keep.
 */
module Patterns {

  /** The four labels a first run starts with. */
  const DefaultMemoPatterns: seq<string> := ["チャプター1", "面白かったところ", "重要なポイント", "質問"]

  /**
   * The code points `String.prototype.trim` removes: ECMAScript WhiteSpace
   * (tab, vertical tab, form feed, space, no-break space, byte order mark and
   * the other space separators) and LineTerminator (line feed, carriage
   * return, line and paragraph separators).
   */
  predicate IsTrimmable(c: char)
  {
    || c == '\U{9}' || c == '\U{B}' || c == '\U{C}' || c == ' ' || c == '\U{A0}' || c == '\U{FEFF}'
    || c == '\U{1680}' || ('\U{2000}' <= c <= '\U{200A}') || c == '\U{202F}' || c == '\U{205F}' || c == '\U{3000}'
    || c == '\n' || c == '\r' || c == '\U{2028}' || c == '\U{2029}'
  }

  /** A label is trimmed: non-empty, with no trimmable character at either end. */
  predicate IsTrimmed(p: string)
  {
    p != [] && !IsTrimmable(p[0]) && !IsTrimmable(p[|p| - 1])
  }

  /** No pattern occurs twice. */
  predicate NoDuplicates(s: seq<string>)
  {
    forall i, j :: 0 <= i < j < |s| ==> s[i] != s[j]
  }

  /** The first index from i on whose character is not trimmable, or |s| if there is none. */
  function FirstKept(s: string, i: nat): (k: nat)
    requires i <= |s|
    ensures i <= k <= |s|
    decreases |s| - i
  {
    if i < |s| && IsTrimmable(s[i]) then FirstKept(s, i + 1) else i
  }

  /** The end of s[..j] once its trailing trimmable characters are dropped. */
  function LastKept(s: string, j: nat): (k: nat)
    requires j <= |s|
    ensures k <= j
  {
    if 0 < j && IsTrimmable(s[j - 1]) then LastKept(s, j - 1) else j
  }

  /** FirstKept skips only trimmable characters and stops at the first other one. */
  lemma {:induction false} FirstKeptStops(s: string, i: nat)
    requires i <= |s|
    ensures forall m :: i <= m < FirstKept(s, i) ==> IsTrimmable(s[m])
    ensures FirstKept(s, i) < |s| ==> !IsTrimmable(s[FirstKept(s, i)])
    decreases |s| - i
  {
    if i < |s| && IsTrimmable(s[i]) {
      FirstKeptStops(s, i + 1);
    }
  }

  /** LastKept drops only trimmable characters and stops at the last other one. */
  lemma {:induction false} LastKeptStops(s: string, j: nat)
    requires j <= |s|
    ensures forall m :: LastKept(s, j) <= m < j ==> IsTrimmable(s[m])
    ensures 0 < LastKept(s, j) ==> !IsTrimmable(s[LastKept(s, j) - 1])
  {
    if 0 < j && IsTrimmable(s[j - 1]) {
      LastKeptStops(s, j - 1);
    }
  }

  /** FirstKept lands on the first character that is not trimmable. */
  lemma {:induction false} FirstKeptAt(s: string, i: nat, k: nat)
    requires i <= k <= |s|
    requires forall m :: i <= m < k ==> IsTrimmable(s[m])
    requires k < |s| ==> !IsTrimmable(s[k])
    ensures FirstKept(s, i) == k
    decreases k - i
  {
    if i < k {
      FirstKeptAt(s, i + 1, k);
    }
  }

  /** LastKept lands just after the last character that is not trimmable. */
  lemma {:induction false} LastKeptAt(s: string, j: nat, k: nat)
    requires k <= j <= |s|
    requires forall m :: k <= m < j ==> IsTrimmable(s[m])
    requires 0 < k ==> !IsTrimmable(s[k - 1])
    ensures LastKept(s, j) == k
    decreases j - k
  {
    if k < j {
      LastKeptAt(s, j - 1, k);
    }
  }

  /** `String.prototype.trim`: s without trimmable characters at either end. */
  function Trim(s: string): (r: string)
    ensures r == [] || IsTrimmed(r)
  {
    var start := FirstKept(s, 0);
    var end := LastKept(s, |s|);
    FirstKeptStops(s, 0);
    LastKeptStops(s, |s|);
    if end <= start then [] else s[start..end]
  }

  /** Trim keeps one contiguous run of s and removes only trimmable characters around it. */
  lemma TrimIsInfix(s: string)
    ensures var k := FirstKept(s, 0);
      k + |Trim(s)| <= |s| && Trim(s) == s[k..k + |Trim(s)|]
      && (forall i :: 0 <= i < k ==> IsTrimmable(s[i]))
      && (forall i :: k + |Trim(s)| <= i < |s| ==> IsTrimmable(s[i]))
  {
    var k := FirstKept(s, 0);
    var end := LastKept(s, |s|);
    FirstKeptStops(s, 0);
    LastKeptStops(s, |s|);
    if end <= k {
      TrimEmpty(s);
    }
  }

  /** Trim gives the empty string exactly when every character is trimmable. */
  lemma TrimEmpty(s: string)
    ensures Trim(s) == [] <==> forall i :: 0 <= i < |s| ==> IsTrimmable(s[i])
  {
    var k := FirstKept(s, 0);
    var end := LastKept(s, |s|);
    FirstKeptStops(s, 0);
    LastKeptStops(s, |s|);
  }

  /** `addMemoPattern`: the trimmed input is appended unless it is empty or already present. */
  function AddPattern(patterns: seq<string>, input: string): (r: seq<string>)
    ensures patterns <= r && |r| <= |patterns| + 1
    ensures |r| == |patterns| + 1 ==> r[|patterns|] == Trim(input) && Trim(input) != [] && Trim(input) !in patterns
  {
    var p := Trim(input);
    if p != [] && p !in patterns then patterns + [p] else patterns
  }

  /** Where `splice(index, 1)` starts: a negative index counts from the end, both ends clamp. */
  function SpliceStart(index: int, length: nat): (k: nat)
    ensures k <= length
    ensures 0 <= index < length ==> k == index
    ensures index < 0 <= length + index ==> k == length + index
    ensures length <= index ==> k == length
    ensures length + index < 0 ==> k == 0
  {
    if index < 0 then (if length + index < 0 then 0 else length + index)
    else if index < length then index
    else length
  }

  /** `deleteMemoPattern`: `patterns.splice(index, 1)`. */
  function RemoveAt(patterns: seq<string>, index: int): (r: seq<string>)
    ensures |r| == |patterns| - 1 || r == patterns
    ensures multiset(r) <= multiset(patterns)
  {
    var k := SpliceStart(index, |patterns|);
    if k < |patterns| then
      assert patterns == patterns[..k] + [patterns[k]] + patterns[k + 1..];
      patterns[..k] + patterns[k + 1..]
    else patterns
  }

  /** Text already trimmed, with trimmable characters put around it, trims back to itself. */
  lemma TrimRemovesPadding(before: string, p: string, after: string)
    requires forall i :: 0 <= i < |before| ==> IsTrimmable(before[i])
    requires forall i :: 0 <= i < |after| ==> IsTrimmable(after[i])
    requires p == [] || IsTrimmed(p)
    ensures Trim(before + p + after) == p
  {
    var s := before + p + after;
    if p == [] {
      forall i | 0 <= i < |s|
        ensures IsTrimmable(s[i])
      {
        if i < |before| {
          assert s[i] == before[i];
        } else {
          assert s[i] == after[i - |before|];
        }
      }
      TrimEmpty(s);
    } else {
      var k := |before|;
      var end := |before| + |p|;
      assert s[k] == p[0] && s[end - 1] == p[|p| - 1];
      forall m | 0 <= m < k
        ensures IsTrimmable(s[m])
      {
        assert s[m] == before[m];
      }
      forall m | end <= m < |s|
        ensures IsTrimmable(s[m])
      {
        assert s[m] == after[m - end];
      }
      FirstKeptAt(s, 0, k);
      LastKeptAt(s, |s|, end);
      assert s[k..end] == p;
    }
  }

  /** Trimming twice is trimming once. */
  lemma TrimIdempotent(s: string)
    ensures Trim(Trim(s)) == Trim(s)
  {
    TrimRemovesPadding([], Trim(s), []);
    assert [] + Trim(s) + [] == Trim(s);
  }

  /** Adding keeps the list free of duplicates, and never adds an empty or untrimmed label. */
  lemma AddPatternKeepsUnique(patterns: seq<string>, input: string)
    requires NoDuplicates(patterns)
    ensures NoDuplicates(AddPattern(patterns, input))
    ensures forall i :: |patterns| <= i < |AddPattern(patterns, input)| ==> IsTrimmed(AddPattern(patterns, input)[i])
  {
  }

  /** After adding, the trimmed input is in the list (unless it was empty); nothing else is added or moved. */
  lemma AddPatternResult(patterns: seq<string>, input: string)
    ensures Trim(input) != [] ==> Trim(input) in AddPattern(patterns, input)
    ensures AddPattern(patterns, input)[..|patterns|] == patterns
    ensures |AddPattern(patterns, input)| <= |patterns| + 1
    ensures Trim(input) == [] || Trim(input) in patterns ==> AddPattern(patterns, input) == patterns
  {
  }

  /** Adding the same input twice has the effect of adding it once. */
  lemma AddPatternIdempotent(patterns: seq<string>, input: string)
    ensures AddPattern(AddPattern(patterns, input), input) == AddPattern(patterns, input)
  {
  }

  /** A label already present, typed again with spaces around it, changes nothing. */
  lemma PaddedDuplicateIgnored(patterns: seq<string>, i: nat, before: string, after: string)
    requires i < |patterns|
    requires IsTrimmed(patterns[i])
    requires forall j :: 0 <= j < |before| ==> IsTrimmable(before[j])
    requires forall j :: 0 <= j < |after| ==> IsTrimmable(after[j])
    ensures AddPattern(patterns, before + patterns[i] + after) == patterns
  {
    TrimRemovesPadding(before, patterns[i], after);
  }

  /** Removing at a valid position drops exactly that label and keeps the others in order. */
  lemma RemoveAtInRange(patterns: seq<string>, index: int)
    requires 0 <= index < |patterns|
    ensures RemoveAt(patterns, index) == patterns[..index] + patterns[index + 1..]
    ensures |RemoveAt(patterns, index)| == |patterns| - 1
    ensures multiset(RemoveAt(patterns, index)) == multiset(patterns) - multiset{patterns[index]}
  {
    assert patterns == patterns[..index] + [patterns[index]] + patterns[index + 1..];
  }

  /** A negative index counts back from the end, as `splice` does. */
  lemma RemoveAtNegative(patterns: seq<string>, index: int)
    requires index < 0 <= |patterns| + index
    ensures RemoveAt(patterns, index) == RemoveAt(patterns, |patterns| + index)
  {
    assert SpliceStart(index, |patterns|) == SpliceStart(|patterns| + index, |patterns|);
  }

  /** An index at or past the end removes nothing. */
  lemma RemoveAtPastEnd(patterns: seq<string>, index: int)
    requires |patterns| <= index
    ensures RemoveAt(patterns, index) == patterns
  {
  }

  /** Removing keeps the list free of duplicates, and the removed label is then gone. */
  lemma RemoveAtKeepsUnique(patterns: seq<string>, index: int)
    requires NoDuplicates(patterns)
    ensures NoDuplicates(RemoveAt(patterns, index))
    ensures 0 <= index < |patterns| ==> patterns[index] !in RemoveAt(patterns, index)
  {
    var k := SpliceStart(index, |patterns|);
    if k < |patterns| {
      var r := RemoveAt(patterns, index);
      assert forall j :: 0 <= j < |r| ==> r[j] == if j < k then patterns[j] else patterns[j + 1];
    }
  }

  /** A non-empty label with no trimmable character at either end is left as it is by Trim. */
  lemma TrimmedIsFixed(p: string)
    requires IsTrimmed(p)
    ensures Trim(p) == p
  {
    TrimRemovesPadding([], p, []);
    assert [] + p + [] == p;
  }

  /**
   * The default labels are distinct and already trimmed, so Trim leaves each
   * as it is. The list is a parameter fixed by `requires`, not the constant
   * itself, only to keep the proof cheap.
   */
  lemma DefaultPatternsWellFormed(patterns: seq<string>)
    requires patterns == DefaultMemoPatterns
    ensures NoDuplicates(patterns)
    ensures forall i :: 0 <= i < |patterns| ==> IsTrimmed(patterns[i])
  {
  }
}
