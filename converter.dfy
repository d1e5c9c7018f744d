/**
 * `handleConvert` in src/main.ts: check the URL and the API key, look up the
 * stream's actual start time, and turn every log entry into a chapter line
 * `HH:MM:SS memo` measured from that start, after a synthetic first line for
 * the start itself. The HTTP request is a parameter: `fetch` maps the
 * request URL to the response it gets.
 */
module Converter {
  import opened Base
  import opened Clock
  import opened VideoId
  import opened LogOrder

  /** The memo of the synthetic first line ("stream start"). */
  const StartLabel: string := "配信開始"

  /** The message used when a failed lookup carries no message of its own. */
  const LookupFallbackMessage: string := "動画情報の取得に失敗しました。"

  const NewLine: char := '\n'

  /**
   * The first element of the response's `items`: its
   * `liveStreamingDetails.actualStartTime` as milliseconds since the epoch,
   * None when the field is missing or empty.
   */
  datatype Item = Item(actualStartTime: Option<int>)

  /** The metadata response: `response.ok`, `data.items` and `data.error?.message`. */
  datatype Response = Response(ok: bool, items: seq<Item>, errorMessage: Option<string>)

  /** The four ways the conversion stops, each reported to the user by an alert. */
  datatype ConvertError =
    | InvalidUrl                  // no video id in the URL
    | MissingApiKey               // the key field is empty
    | LookupFailed(message: string) // non-ok response or no items
    | NotArchived                 // no actual start time: not an archived live stream

  /** The YouTube Data API `videos` endpoint, up to the id parameter's value. */
  const ApiEndpoint: string := "https://www.googleapis.com/youtube/v3/videos?id="

  /** The parameters after the id: the part to fetch, then the key parameter's name. */
  const ApiPartAndKey: string := "&part=liveStreamingDetails&key="

  /**
   * The metadata request for a video id and API key: the endpoint with the
   * id right after `id=`, then the request for `liveStreamingDetails`, and
   * the key as the last parameter's value.
   */
  function ApiUrl(videoId: string, apiKey: string): (url: string)
    ensures |url| == |ApiEndpoint| + |videoId| + |ApiPartAndKey| + |apiKey|
    ensures url[..|ApiEndpoint|] == ApiEndpoint
    ensures url[|ApiEndpoint|..|ApiEndpoint| + |videoId|] == videoId
    ensures url[|ApiEndpoint| + |videoId|..|url| - |apiKey|] == ApiPartAndKey
    ensures url[|url| - |apiKey|..] == apiKey
  {
    var url := ApiEndpoint + videoId + ApiPartAndKey + apiKey;
    assert url[..|ApiEndpoint|] == ApiEndpoint;
    assert url[|ApiEndpoint|..|ApiEndpoint| + |videoId|] == videoId;
    assert url[|ApiEndpoint| + |videoId|..|url| - |apiKey|] == ApiPartAndKey;
    assert url[|url| - |apiKey|..] == apiKey;
    url
  }

  /** `data.error?.message || '動画情報の取得に失敗しました。'`. */
  function LookupMessage(response: Response): (m: string)
    ensures m != []
    ensures response.errorMessage.Some? && response.errorMessage.value != [] ==> m == response.errorMessage.value
    ensures response.errorMessage.None? || response.errorMessage.value == [] ==> m == LookupFallbackMessage
  {
    match response.errorMessage
    case Some(message) => if message != [] then message else LookupFallbackMessage
    case None => LookupFallbackMessage
  }

  /**
   * Whole seconds from the start instant to the entry, zero for entries at or
   * before the start: `(timestamp - startTime) / 1000` when positive, floored
   * by `formatSeconds`.
   */
  function ElapsedSeconds(timestamp: int, start: int): (r: nat)
    ensures timestamp <= start ==> r == 0
    ensures timestamp > start ==> r * 1000 <= timestamp - start < (r + 1) * 1000
  {
    if timestamp > start then (timestamp - start) / 1000 else 0
  }

  /** One chapter line: `${formattedTime} ${log.memo}`. */
  function ChapterLine(entry: LogEntry, start: int): string
  {
    FormatSeconds(ElapsedSeconds(entry.timestamp, start)) + " " + entry.memo
  }

  /** `logs.map(...)` with the start line put in front by `unshift`. */
  function ChapterLines(logs: seq<LogEntry>, start: int): (lines: seq<string>)
    ensures |lines| == |logs| + 1
    ensures lines[0] == FormatSeconds(0) + " " + StartLabel
    ensures forall i :: 0 <= i < |logs| ==> lines[i + 1] == ChapterLine(logs[i], start)
  {
    [FormatSeconds(0) + " " + StartLabel] + seq(|logs|, i requires 0 <= i < |logs| => ChapterLine(logs[i], start))
  }

  /** `Array.prototype.join(sep)` for a one-character separator. */
  function Join(lines: seq<string>, sep: char): (r: string)
    ensures lines != [] ==> lines[0] <= r
    ensures 1 < |lines| ==> |lines[0]| < |r| && r[|lines[0]|] == sep
    ensures lines != [] ==> |lines[|lines| - 1]| <= |r| && r[|r| - |lines[|lines| - 1]|..] == lines[|lines| - 1]
  {
    if lines == [] then []
    else if |lines| == 1 then lines[0]
    else
      var tail := Join(lines[1..], sep);
      var r := lines[0] + [sep] + tail;
      assert r[|r| - |tail|..] == tail;
      r
  }

  /** Splits text at every separator: the lines a text area shows. */
  function Split(s: string, sep: char): (parts: seq<string>)
    ensures 1 <= |parts|
  {
    if s == [] then [[]]
    else
      var rest := Split(s[1..], sep);
      if s[0] == sep then [[]] + rest else [[s[0]] + rest[0]] + rest[1..]
  }

  /** The text written to the output area. */
  function ConvertOutput(logs: seq<LogEntry>, start: int): string
  {
    Join(ChapterLines(logs, start), NewLine)
  }

  /**
   * `handleConvert`: the checks in the source's order (URL, key, response,
   * start time) and, when all pass, the converted text.
   */
  function HandleConvert(url: string, apiKey: string, fetch: string -> Response, logs: seq<LogEntry>)
    : (r: Result<string, ConvertError>)
    ensures r == Failure(InvalidUrl) <==> GetVideoIdFromUrl(url).None?
    ensures r == Failure(MissingApiKey) <==> GetVideoIdFromUrl(url).Some? && apiKey == []
    ensures GetVideoIdFromUrl(url).Some? && apiKey != [] ==>
      var response := fetch(ApiUrl(GetVideoIdFromUrl(url).value, apiKey));
      && (r == Failure(LookupFailed(LookupMessage(response))) <==> !response.ok || |response.items| == 0)
      && (r == Failure(NotArchived) <==>
            response.ok && |response.items| > 0 && response.items[0].actualStartTime.None?)
      && (r.Success? <==>
            response.ok && |response.items| > 0 && response.items[0].actualStartTime.Some?)
      && (r.Success? ==> r.value == ConvertOutput(logs, response.items[0].actualStartTime.value))
  {
    match GetVideoIdFromUrl(url)
    case None => Failure(InvalidUrl)
    case Some(videoId) =>
      if apiKey == [] then Failure(MissingApiKey)
      else
        var response := fetch(ApiUrl(videoId, apiKey));
        if !response.ok || |response.items| == 0 then Failure(LookupFailed(LookupMessage(response)))
        else
          match response.items[0].actualStartTime
          case None => Failure(NotArchived)
          case Some(start) => Success(ConvertOutput(logs, start))
  }

  /** Text without the separator is one part. */
  lemma {:induction false} SplitWithout(a: string, sep: char)
    requires sep !in a
    ensures Split(a, sep) == [a]
  {
    if a != [] {
      SplitWithout(a[1..], sep);
      assert [a[0]] + a[1..] == a;
    }
  }

  /** A separator after separator-free text ends the first part there. */
  lemma {:induction false} SplitAtFirst(a: string, b: string, sep: char)
    requires sep !in a
    ensures Split(a + [sep] + b, sep) == [a] + Split(b, sep)
  {
    if a == [] {
      assert a + [sep] + b == [sep] + b;
      assert ([sep] + b)[1..] == b;
    } else {
      var s := a + [sep] + b;
      assert s[1..] == a[1..] + [sep] + b;
      SplitAtFirst(a[1..], b, sep);
      assert [a[0]] + a[1..] == a;
    }
  }

  /** Splitting undoes joining when no line holds the separator. */
  lemma {:induction false} SplitJoin(lines: seq<string>, sep: char)
    requires lines != []
    requires forall i :: 0 <= i < |lines| ==> sep !in lines[i]
    ensures Split(Join(lines, sep), sep) == lines
  {
    if |lines| == 1 {
      SplitWithout(lines[0], sep);
    } else {
      SplitJoin(lines[1..], sep);
      SplitAtFirst(lines[0], Join(lines[1..], sep), sep);
      assert [lines[0]] + lines[1..] == lines;
    }
  }

  /** A chapter line breaks only where its memo does: the time part has no line break. */
  lemma LineBreakOnlyInMemo(seconds: nat, memo: string)
    requires NewLine !in memo
    ensures NewLine !in FormatSeconds(seconds) + " " + memo
  {
    FormatSecondsCharset(seconds);
  }

  /**
   * When no memo holds a line break, the output has exactly one line more
   * than the log: the start line, then one line per entry in log order.
   */
  lemma OutputLines(logs: seq<LogEntry>, start: int)
    requires forall i :: 0 <= i < |logs| ==> NewLine !in logs[i].memo
    ensures Split(ConvertOutput(logs, start), NewLine) == ChapterLines(logs, start)
    ensures |Split(ConvertOutput(logs, start), NewLine)| == |logs| + 1
  {
    var lines := ChapterLines(logs, start);
    forall i | 0 <= i < |lines|
      ensures NewLine !in lines[i]
    {
      if i == 0 {
        LineBreakOnlyInMemo(0, StartLabel);
      } else {
        var e := logs[i - 1];
        LineBreakOnlyInMemo(ElapsedSeconds(e.timestamp, start), e.memo);
      }
    }
    SplitJoin(lines, NewLine);
  }

  /** An entry at or before the start is put at 00:00:00. */
  lemma ClampedLine(entry: LogEntry, start: int)
    requires entry.timestamp <= start
    ensures ChapterLine(entry, start) == "00:00:00 " + entry.memo
  {
    FormatZero(0);
  }

  /** The part of a chapter line before the space and the memo is the time, and reads as it does. */
  lemma TimeBeforeMemo(time: string, memo: string)
    ensures var line := time + " " + memo;
      line[..|line| - |memo| - 1] == time && ParseClock(line[..|line| - |memo| - 1]) == ParseClock(time)
  {
    var line := time + " " + memo;
    assert line[..|line| - |memo| - 1] == time;
  }

  /**
   * The time at the head of every chapter line reads back as the entry's
   * offset: the whole seconds since the start, or zero for an entry at or
   * before it.
   */
  lemma LineTimeParses(entry: LogEntry, start: int)
    ensures var line := ChapterLine(entry, start);
      ParseClock(line[..|line| - |entry.memo| - 1]) == Some(ElapsedSeconds(entry.timestamp, start))
  {
    var seconds := ElapsedSeconds(entry.timestamp, start);
    FormatSecondsRoundTrip(seconds);
    ParsedBeforeMemo(ChapterLine(entry, start), FormatSeconds(seconds), entry.memo, seconds);
  }

  /** A time that reads as `n` still reads as `n` once cut back out of its line. */
  lemma ParsedBeforeMemo(line: string, time: string, memo: string, n: nat)
    requires line == time + " " + memo && ParseClock(time) == Some(n)
    ensures ParseClock(line[..|line| - |memo| - 1]) == Some(n)
  {
    TimeBeforeMemo(time, memo);
  }

  /** The elapsed time as a number is positive exactly after the start, and then floors to ElapsedSeconds. */
  lemma ElapsedNumberFloors(timestamp: int, start: int)
    ensures var elapsed := (timestamp - start) as real / 1000.0;
      && (elapsed > 0.0 <==> timestamp > start)
      && (elapsed > 0.0 ==> elapsed.Floor == ElapsedSeconds(timestamp, start))
  {
    if timestamp > start {
      FloorOfQuotient((timestamp - start) as real, 1000);
    }
  }

  /**
   * The time text of a chapter line exactly as the source computes it:
   * `(log.timestamp - startTime) / 1000` as a number, then
   * `formatSeconds` of it when positive and `formatSeconds(0)` otherwise.
   */
  function SourceChapterTime(timestamp: int, start: int): string
  {
    var elapsed := (timestamp - start) as real / 1000.0;
    if elapsed > 0.0 then FormatSecondsOfNumber(elapsed) else FormatSecondsOfNumber(0.0)
  }

  /** After the start the source formats the fractional offset, which is the text of its whole seconds. */
  lemma SourceChapterTimeAfterStart(timestamp: int, start: int)
    requires timestamp > start
    ensures SourceChapterTime(timestamp, start) == FormatSeconds(ElapsedSeconds(timestamp, start))
  {
    ElapsedNumberFloors(timestamp, start);
  }

  /** At or before the start the source formats 0, which is the clamped offset's text. */
  lemma SourceChapterTimeClamped(timestamp: int, start: int)
    requires timestamp <= start
    ensures SourceChapterTime(timestamp, start) == FormatSeconds(ElapsedSeconds(timestamp, start))
  {
    ElapsedNumberFloors(timestamp, start);
    assert SourceChapterTime(timestamp, start) == FormatSecondsOfNumber(0.0);
  }

  /** The source's fractional, clamped time text is the model's whole-second one. */
  lemma SourceChapterTimeAgrees(timestamp: int, start: int)
    ensures SourceChapterTime(timestamp, start) == FormatSeconds(ElapsedSeconds(timestamp, start))
  {
    if timestamp > start {
      SourceChapterTimeAfterStart(timestamp, start);
    } else {
      SourceChapterTimeClamped(timestamp, start);
    }
  }

  /** Clamping and floor division are monotone, so a sorted log gives non-decreasing offsets. */
  lemma OffsetsMonotone(logs: seq<LogEntry>, start: int, i: nat, j: nat)
    requires Sorted(logs) && i <= j < |logs|
    ensures ElapsedSeconds(logs[i].timestamp, start) <= ElapsedSeconds(logs[j].timestamp, start)
  {
    var a, b := logs[i].timestamp, logs[j].timestamp;
    if a > start {
      var ea, eb := ElapsedSeconds(a, start), ElapsedSeconds(b, start);
      assert ea * 1000 <= a - start <= b - start < (eb + 1) * 1000;
    }
  }

  // The examples below, like those in Clock, take their number as a parameter fixed by `requires`
  // rather than as a literal argument. This only keeps the proofs cheap: on a
  // literal argument the solver evaluates every function it reaches.

  /** `formatSeconds(125)` is "00:02:05". */
  lemma FormatTwoMinutesFive(t: nat)
    requires t == 125
    ensures FormatSeconds(t) == "00:02:05"
  {
    SplitUnits(t);
    assert t / 3600 == 0 && (t % 3600) / 60 == 2 && t % 60 == 5;
    Pad2Digit(0);
    Pad2Digit(2);
    Pad2Digit(5);
    assert DigitChar(0) == '0' && DigitChar(2) == '2' && DigitChar(5) == '5';
    assert FormatSeconds(t) == FormatUnits(0, 2, 5) == "00" + ":" + "02" + ":" + "05";
  }

  /** One entry 125 seconds after the start: the start line, then `00:02:05 memo`. */
  lemma OneEntryOutput(start: int, timestamp: int, memo: string)
    requires timestamp == start + 125000
    ensures ConvertOutput([LogEntry(timestamp, memo)], start) == "00:00:00 " + StartLabel + "\n00:02:05 " + memo
  {
    var entry := LogEntry(timestamp, memo);
    var first, second := FormatSeconds(0) + " " + StartLabel, ChapterLine(entry, start);
    assert ElapsedSeconds(timestamp, start) == 125;
    FormatTwoMinutesFive(ElapsedSeconds(timestamp, start));
    FormatZero(0);
    OneEntryLines(entry, start);
    JoinTwo(first, second, NewLine);
    TwoLinesText(FormatSeconds(0), FormatSeconds(ElapsedSeconds(timestamp, start)), memo);
  }

  /** The two lines of a one-entry log, joined, as one string literal. */
  lemma TwoLinesText(zero: string, time: string, memo: string)
    requires zero == "00:00:00" && time == "00:02:05"
    ensures (zero + " " + StartLabel) + [NewLine] + (time + " " + memo) == "00:00:00 " + StartLabel + "\n00:02:05 " + memo
  {
  }

  /** A one-entry log gives two lines: the start line and the entry's line. */
  lemma OneEntryLines(entry: LogEntry, start: int)
    ensures ChapterLines([entry], start) == [FormatSeconds(0) + " " + StartLabel, ChapterLine(entry, start)]
  {
    var lines := ChapterLines([entry], start);
    assert lines == [lines[0], lines[1]];
  }

  /** Two lines joined: the first, the separator, the second. */
  lemma JoinTwo(a: string, b: string, sep: char)
    ensures Join([a, b], sep) == a + [sep] + b
  {
    assert [a, b][1..] == [b];
  }

  /**
   * End to end, from a short link: a log with one entry 125 seconds after
   * the reported start converts to the start line and `00:02:05 memo`.
   */
  lemma ShortLinkEndToEnd(id: string, apiKey: string, fetch: string -> Response, t0: int, memo: string)
    requires |id| == IdLength && forall j :: 0 <= j < |id| ==> IsIdChar(id[j])
    requires apiKey != []
    requires fetch(ApiUrl(id, apiKey)) == Response(true, [Item(Some(t0))], None)
    ensures HandleConvert("https://youtu.be/" + id, apiKey, fetch, [LogEntry(t0 + 125000, memo)])
         == Success("00:00:00 " + StartLabel + "\n00:02:05 " + memo)
  {
    var url := "https://youtu.be/" + id;
    assert url == "https://" + Prefixes[3] + id + [];
    SupportedShapeYieldsId("https://", 3, id, []);
    OneEntryOutput(t0, t0 + 125000, memo);
  }
}
