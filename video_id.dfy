/**
 * `getVideoIdFromUrl` in src/main.ts: the unanchored pattern
 *   (?:youtube\.com/(?:watch\?v=|embed/|live/)|youtu\.be/)([a-zA-Z0-9_-]{11})
 * written out by hand as a leftmost substring search. The pattern's
 * alternatives are the four prefixes below, tried in this order; the
 * capture group is the 11 identifier characters after the prefix.
 */
module VideoId {
  import opened Base

  const IdLength: nat := 11

  const Prefixes: seq<string> :=
    ["youtube.com/watch?v=", "youtube.com/embed/", "youtube.com/live/", "youtu.be/"]

  /** The character class `[a-zA-Z0-9_-]`. */
  predicate IsIdChar(c: char)
  {
    ('a' <= c <= 'z') || ('A' <= c <= 'Z') || ('0' <= c <= '9') || c == '_' || c == '-'
  }

  /** Alternative k of the pattern, followed by 11 identifier characters, starts at position i. */
  predicate AlternativeMatchesAt(url: string, i: nat, k: nat)
    requires k < |Prefixes|
  {
    var p := Prefixes[k];
    && i + |p| + IdLength <= |url|
    && url[i..i + |p|] == p
    && forall j :: i + |p| <= j < i + |p| + IdLength ==> IsIdChar(url[j])
  }

  /** The whole pattern matches starting at position i. */
  predicate MatchesAt(url: string, i: nat)
  {
    AlternativeMatchesAt(url, i, 0) || AlternativeMatchesAt(url, i, 1)
    || AlternativeMatchesAt(url, i, 2) || AlternativeMatchesAt(url, i, 3)
  }

  /** i is where the leftmost match of the pattern starts. */
  predicate IsLeftmostMatch(url: string, i: nat)
  {
    MatchesAt(url, i) && forall j :: 0 <= j < i ==> !MatchesAt(url, j)
  }

  /** At one position at most one alternative can match. */
  lemma AtMostOneAlternative(url: string, i: nat, k1: nat, k2: nat)
    requires k1 < |Prefixes| && k2 < |Prefixes|
    requires AlternativeMatchesAt(url, i, k1) && AlternativeMatchesAt(url, i, k2)
    ensures k1 == k2
  {
    var p1, p2 := Prefixes[k1], Prefixes[k2];
    assert url[i + 5] == url[i..i + |p1|][5] == p1[5];
    assert url[i + 5] == url[i..i + |p2|][5] == p2[5];
    if k1 < 3 && k2 < 3 {
      assert url[i + 12] == url[i..i + |p1|][12] == p1[12];
      assert url[i + 12] == url[i..i + |p2|][12] == p2[12];
    }
  }

  /** The alternative that matches at i (the first in the pattern's order, and the only one). */
  function AlternativeAt(url: string, i: nat): (k: nat)
    requires MatchesAt(url, i)
    ensures k < |Prefixes| && AlternativeMatchesAt(url, i, k)
  {
    if AlternativeMatchesAt(url, i, 0) then 0
    else if AlternativeMatchesAt(url, i, 1) then 1
    else if AlternativeMatchesAt(url, i, 2) then 2
    else 3
  }

  /** What the capture group holds for a match at i. */
  function CaptureAt(url: string, i: nat): (id: string)
    requires MatchesAt(url, i)
    ensures |id| == IdLength && forall j :: 0 <= j < |id| ==> IsIdChar(id[j])
  {
    var p := Prefixes[AlternativeAt(url, i)];
    url[i + |p|..i + |p| + IdLength]
  }

  /** The regular expression engine's scan: try each start position from `from` on, left to right. */
  function FindMatchFrom(url: string, from: nat): (r: Option<nat>)
    requires from <= |url|
    ensures r.Some? ==> from <= r.value <= |url| && MatchesAt(url, r.value)
    ensures r.Some? ==> forall j :: from <= j < r.value ==> !MatchesAt(url, j)
    ensures r.None? ==> forall j :: from <= j <= |url| ==> !MatchesAt(url, j)
    decreases |url| - from
  {
    if MatchesAt(url, from) then Some(from)
    else if from == |url| then None
    else FindMatchFrom(url, from + 1)
  }

  /**
   * `getVideoIdFromUrl`: the capture of the leftmost match, or None (`null`)
   * when the pattern matches nowhere.
   */
  function GetVideoIdFromUrl(url: string): (r: Option<string>)
    ensures r.None? <==> forall i :: 0 <= i <= |url| ==> !MatchesAt(url, i)
    ensures r.Some? ==> |r.value| == IdLength && forall j :: 0 <= j < IdLength ==> IsIdChar(r.value[j])
    ensures r.Some? ==> exists i :: 0 <= i <= |url| && IsLeftmostMatch(url, i) && r.value == CaptureAt(url, i)
  {
    match FindMatchFrom(url, 0)
    case None => None
    case Some(i) => Some(CaptureAt(url, i))
  }

  /**
   * Each of the four supported shapes yields its identifier, whatever comes
   * after it and whatever scheme or host part comes before it, as long as
   * that part has no 'y' (every alternative starts with 'y').
   */
  lemma {:induction false} SupportedShapeYieldsId(scheme: string, k: nat, id: string, rest: string)
    requires k < |Prefixes| && forall j :: 0 <= j < |scheme| ==> scheme[j] != 'y'
    requires |id| == IdLength && forall j :: 0 <= j < |id| ==> IsIdChar(id[j])
    ensures GetVideoIdFromUrl(scheme + Prefixes[k] + id + rest) == Some(id)
  {
    var p := Prefixes[k];
    var url := scheme + p + id + rest;
    var at := |scheme|;
    assert url[at..at + |p|] == p;
    assert url[at + |p|..at + |p| + IdLength] == id;
    assert AlternativeMatchesAt(url, at, k);
    forall j | 0 <= j < at
      ensures !MatchesAt(url, j)
    {
      assert url[j] == scheme[j];
      forall k' | 0 <= k' < |Prefixes|
        ensures !AlternativeMatchesAt(url, j, k')
      {
        var p' := Prefixes[k'];
        if j + |p'| <= |url| {
          assert url[j..j + |p'|][0] == url[j] != p'[0];
        }
      }
    }
    assert MatchesAt(url, at);
    var found := FindMatchFrom(url, 0);
    assert found.Some? && found.value <= at;
    assert !(found.value < at);
    AtMostOneAlternative(url, at, k, AlternativeAt(url, at));
  }

  /** An input shorter than the shortest alternative plus the identifier never matches. */
  lemma ShortInputHasNoId(url: string)
    requires |url| < |Prefixes[3]| + IdLength
    ensures GetVideoIdFromUrl(url) == None
  {
  }
}
