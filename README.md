# youtube-timestamp, modelled in Dafny

youtube-timestamp is a single-page browser tool (`src/main.ts`). During a live
stream the user presses memo buttons. Each press records the current instant
with a label such as "面白かったところ" or "質問". Afterwards the user pastes
the archive's URL and an API key. The tool looks up the stream's actual start
time and turns the log into YouTube chapter lines, one per entry:
`HH:MM:SS memo`. A first line `00:00:00 配信開始` is always added.

This project models the logic of that page and proves what it promises.

- `Clock` (clock.dfy) holds `formatSeconds`: decimal rendering of naturals
  (`String(n)`), `padStart(2, '0')`, the three fields, and a parser
  `ParseClock` that reads a formatted time back. The parser is there so the
  round trip can be stated.
- `VideoId` (video_id.dfy) holds `getVideoIdFromUrl`. Its one fixed regular
  expression is written as a hand-coded leftmost substring search: one of
  four prefixes followed by exactly 11 characters from `[A-Za-z0-9_-]`.
- `LogOrder` (log_order.dfy) holds the log entry and the order
  `recordTimestamp` keeps the log in. `logs.sort((a, b) => a.timestamp -
  b.timestamp)` is a stable sort. `StableSort` is one stable sort by
  timestamp. `StableSortUnique` proves that every sorted arrangement that
  keeps the order of equal timestamps is this one. So it stands for the
  engine's sort, whichever algorithm that uses.
- `Converter` (converter.dfy) holds the checks and the conversion of
  `handleConvert` as a pure function over an abstract response. The HTTP
  request is a function parameter `fetch`, from the request URL to the
  response.
- `Patterns` (patterns.dfy) holds the memo-label list as values:
  - `String.prototype.trim` over the ECMAScript WhiteSpace and
    LineTerminator code points;
  - the add rule (trim, refuse an empty or present label, append);
  - `splice(index, 1)` with JavaScript's index rules.
- `Page` (app_state.dfy) has the class `AppState` with the page's two
  mutable lists, `logs` and `memoPatterns`. Its methods change them in
  place: start-up loading, adding and deleting a label, recording a
  timestamp and the confirmed reset. Each method names the one field it may
  modify. Each states that field's new value in terms of the functions
  above, and the invariant it keeps (no duplicate labels, a sorted log).
- `Base` (base.dfy) holds `Option` and `Result`.

Timestamps are integer milliseconds. The offset of an entry is
`(timestamp - start) / 1000` in whole seconds when positive, and zero
otherwise. The source divides as a number and lets `formatSeconds` floor each
unit. `FormatSecondsOfNumber` and `SourceChapterTime` write that computation
out over exact reals. `SourceChapterTimeAgrees` proves it gives the same text
as the whole-second model.

## Model

| member | source | states |
|---|---|---|
| Clock.NatToString | src/main.ts:149 | `String(n)` for a natural: at least one character, all decimal digits, and the digits denote n |
| Clock.NatToStringCanonical | src/main.ts:149 | `String(n)` has no leading zero unless it is "0", and it is one character exactly when n < 10 |
| Clock.PadStart | src/main.ts:149-151 | `padStart`: the result is as long as the width, or as the text when that is longer |
| Clock.PadStartShape | src/main.ts:149-151 | `padStart` ends with the original text and puts only fill characters in front of it |
| Clock.Pad2Shape | src/main.ts:149-151 | padding to two adds one '0' below 10 and nothing from 10 on |
| Clock.Pad2 | src/main.ts:149-151 | `String(n).padStart(2, '0')`; Pad2Shape and PadKeepsValue state its shape and value |
| Clock.PadKeepsValue | src/main.ts:149-151 | a padded field still denotes the number, has at least two digits, and has exactly two below 100 |
| Clock.LeadingZeroIgnored | src/main.ts:149-151 | a leading '0' does not change the value a digit string denotes |
| Clock.SplitUnits | src/main.ts:145-147 | the floor-division fields satisfy minutes < 60, seconds < 60 and hours·3600 + minutes·60 + seconds = total |
| Clock.ClockText | src/main.ts:153 | the template `${h}:${m}:${s}` puts colons three and six characters from the end, and the three fields read back as given |
| Clock.FormatUnits | src/main.ts:149-153 | three units padded and joined give `H:MM:SS` text: at least 8 characters, colons three and six from the end |
| Clock.FormatSeconds | src/main.ts:144-154 | the text is at least 8 characters with colons three and six characters from the end |
| Clock.FormatUnitsFields | src/main.ts:149-153 | the hours field is padded hours; each field is digits and denotes its unit |
| Clock.FormatSecondsFields | src/main.ts:144-154 | hours field denotes total div 3600 with at least two digits; minutes field (total mod 3600) div 60; seconds field total mod 60 |
| Clock.ParseClock | src/main.ts:144-154 | reading `H:MM:SS` back succeeds only on text of that shape: at least 8 characters, colons three and six from the end, three digit fields, minutes and seconds below 60 |
| Clock.FormatUnitsRoundTrip | src/main.ts:149-153 | parsing formatted hours, minutes and seconds gives h·3600 + m·60 + s |
| Clock.FormatSecondsRoundTrip | src/main.ts:144-154 | parsing `formatSeconds(t)` gives back t, for every t |
| Clock.FloorOfQuotient | src/main.ts:145-147 | `Math.floor(x / y)` for a non-negative x is x's floor divided by y |
| Clock.JsRemainder | src/main.ts:146-147 | `x % y` on non-negative numbers lies in [0, y) and leaves a whole multiple of y |
| Clock.FloorUnits | src/main.ts:145-147 | for a non-negative number x of seconds, the three floored units are those of x's floor |
| Clock.FormatSecondsOfNumber | src/main.ts:144-154 | `formatSeconds` as written, on a non-negative number of seconds that need not be whole, gives the text of its whole seconds |
| Clock.FormatSecondsInjective | src/main.ts:144-154 | different second counts give different texts |
| Clock.FormatSecondsCharset | src/main.ts:144-154 | the text holds only digits and ':' (so never a line break) |
| Clock.Pad2Digit | src/main.ts:149-151 | a single digit d is padded to "0d" |
| Clock.FormatZero | src/main.ts:144-154 | `formatSeconds(0)` is "00:00:00" |
| Clock.FormatOneHourOneMinuteOneSecond | src/main.ts:144-154 | `formatSeconds(3661)` is "01:01:01" |
| Clock.HundredDigits | src/main.ts:149 | `String(100)` is "100" |
| Clock.FormatHundredHours | src/main.ts:144-154 | `formatSeconds(360000)` is "100:00:00": hours are not cut to two digits |
| Clock.TwoDigitsBelow100 | src/main.ts:149 | below 100, `String(n)` has at most two digits |
| Clock.ThreeDigitsFrom100 | src/main.ts:149 | from 100 on, `String(n)` has at least three digits |
| Clock.HundredHoursNotTruncated | src/main.ts:149 | from 100 hours on, the hours field is at least three digits wide and denotes all the hours |
| VideoId.IsIdChar | src/main.ts:139 | the character class `[a-zA-Z0-9_-]` of the captured identifier |
| VideoId.AlternativeMatchesAt | src/main.ts:139 | one alternative of the pattern (`youtube.com/watch?v=`, `youtube.com/embed/`, `youtube.com/live/` or `youtu.be/`, in that order) followed by 11 identifier characters starts at position i |
| VideoId.MatchesAt | src/main.ts:139 | the whole unanchored pattern matches at position i: one of its four alternatives does |
| VideoId.IsLeftmostMatch | src/main.ts:139-140 | i is the first position where the pattern matches, the one a non-global `match` reports |
| VideoId.AtMostOneAlternative | src/main.ts:139 | at one position at most one of the four prefixes matches |
| VideoId.AlternativeAt | src/main.ts:139 | the alternative it picks is one that matches at that position |
| VideoId.CaptureAt | src/main.ts:139-141 | the capture after a match is 11 id characters |
| VideoId.FindMatchFrom | src/main.ts:139-140 | the search from a position finds the first matching position at or after it, or reports that none exists |
| VideoId.GetVideoIdFromUrl | src/main.ts:133-142 | null exactly when no position matches; otherwise 11 id characters, namely the capture at the leftmost matching position |
| VideoId.SupportedShapeYieldsId | src/main.ts:134-141 | each of the four supported URL shapes, behind a scheme without 'y', yields its 11-character id |
| VideoId.ShortInputHasNoId | src/main.ts:139-141 | a URL shorter than the shortest prefix plus 11 characters has no id |
| LogOrder.InsertionPoint | src/main.ts:113-114 | the position after the last entry not later than t: every entry after it is later, and the one before it is not |
| LogOrder.Insert | src/main.ts:114 | one insertion step grows the log by exactly one entry |
| LogOrder.InsertPermutes | src/main.ts:114 | an insertion step adds the entry and loses nothing (multiset) |
| LogOrder.InsertMembers | src/main.ts:114 | the entries after insertion are the old ones and the new one |
| LogOrder.InsertShape | src/main.ts:114 | an insertion step puts the entry at the insertion point and keeps the others in order |
| LogOrder.InsertKeepsSorted | src/main.ts:114 | inserting into a sorted log keeps it sorted |
| LogOrder.StableSort | src/main.ts:114 | the result is sorted by timestamp and is a permutation of the input |
| LogOrder.InsertionPointSplits | src/main.ts:113-114 | in a sorted log, entries before the insertion point are not later than t and entries after it are later |
| LogOrder.TiesAppend | src/main.ts:114 | appending an entry adds it to the ties of its own timestamp only |
| LogOrder.TiesInsert | src/main.ts:114 | insertion appends the entry to its own timestamp's ties and changes no other ties |
| LogOrder.StableSortKeepsTies | src/main.ts:114 | the sort is stable: entries with equal timestamps keep their relative order |
| LogOrder.SortedIsFixed | src/main.ts:114 | sorting a sorted log changes nothing |
| LogOrder.TiesMembers | src/main.ts:114 | an entry is a tie at t exactly when it is in the log with timestamp t |
| LogOrder.LastIsLatest | src/main.ts:114 | the last entry of a sorted log has the greatest timestamp |
| LogOrder.SameLastTimestamp | src/main.ts:114 | sorted logs with the same ties end at the same timestamp |
| LogOrder.SameLastEntry | src/main.ts:114 | logs ending at the same timestamp with the same ties there end in the same entry |
| LogOrder.DropLastKeepsTies | src/main.ts:114 | removing an equal last entry keeps equal ties |
| LogOrder.SortedDropLast | src/main.ts:114 | a sorted log stays sorted without its last entry |
| LogOrder.SortedTiesDetermine | src/main.ts:114 | two sorted logs with the same ties at every timestamp are equal |
| LogOrder.StableSortUnique | src/main.ts:114 | every sorted arrangement that keeps the order of equal timestamps equals `StableSort`, so any stable sort by timestamp gives the same log |
| LogOrder.AppendThenSort | src/main.ts:113-114 | push-then-sort on a sorted log places the new entry after every entry with an equal or earlier timestamp and before every later one, the others unmoved |
| Converter.LookupMessage | src/main.ts:180-181 | the lookup error shows the response's message when it has a non-empty one, and the fixed fallback text otherwise; never empty |
| Converter.ApiUrl | src/main.ts:176 | the request URL is the `videos` endpoint, the id right after `id=`, then `&part=liveStreamingDetails&key=`, then the key as the last value |
| Converter.ElapsedSeconds | src/main.ts:195-197 | zero for an entry at or before the start; otherwise the floor of the elapsed milliseconds over 1000 |
| Converter.ElapsedNumberFloors | src/main.ts:195-197 | `(timestamp - startTime) / 1000` is positive exactly after the start, and then floors to the model's whole seconds |
| Converter.SourceChapterTime | src/main.ts:195-197 | the time text as the source computes it, over exact reals; the three lemmas below relate it to the integer model |
| Converter.SourceChapterTimeAfterStart | src/main.ts:195-197 | after the start the fractional offset is formatted as its whole seconds |
| Converter.SourceChapterTimeClamped | src/main.ts:196-197 | at or before the start `formatSeconds(0)` is the clamped offset's text |
| Converter.SourceChapterTimeAgrees | src/main.ts:195-197 | the source's time text (format the fractional offset when positive, else 0) equals the model's whole-second text |
| Converter.ChapterLines | src/main.ts:194-202 | one line more than the log: first `00:00:00 配信開始`, then line i+1 is entry i's offset, a space and its memo, in log order |
| Converter.ChapterLine | src/main.ts:194-198 | one entry's line `${formattedTime} ${log.memo}`; TimeBeforeMemo, LineTimeParses and LineBreakOnlyInMemo state what it holds |
| Converter.Join | src/main.ts:204 | `join(sep)`: the text starts with the first line, the separator follows it when there are more, and the text ends with the last line |
| Converter.ConvertOutput | src/main.ts:194-204 | the text written to the output area; OutputLines and OneEntryOutput state what it reads as |
| Converter.Split | src/main.ts:204 | splitting text at a separator gives at least one part |
| Converter.HandleConvert | src/main.ts:156-212 | checks in the source's order: invalid URL exactly when no id; missing key exactly when an id is found and the key is empty; for the response to the request for that id and key: lookup failure exactly when not ok or no items, not archived exactly when the first item has no start time, and success exactly when it has one, with the converted text measured from that start |
| Converter.SplitWithout | src/main.ts:204 | text without the separator is one line |
| Converter.SplitAtFirst | src/main.ts:204 | a separator after separator-free text ends the first line there |
| Converter.SplitJoin | src/main.ts:204 | splitting the joined lines gives the lines back when none holds the separator |
| Converter.LineBreakOnlyInMemo | src/main.ts:198 | a chapter line holds a line break only where its memo does |
| Converter.OutputLines | src/main.ts:194-204 | when no memo holds a line break, the output reads as exactly the chapter lines, one more than the log |
| Converter.ClampedLine | src/main.ts:196-197 | an entry at or before the start is written `00:00:00 memo` |
| Converter.TimeBeforeMemo | src/main.ts:198 | in `${time} ${memo}` the part before the space and memo is the time |
| Converter.LineTimeParses | src/main.ts:194-198 | the time at the head of each chapter line reads back as the entry's clamped, floored offset in seconds |
| Converter.OffsetsMonotone | src/main.ts:194-199 | in a log sorted by timestamp, later entries never get smaller offsets |
| Converter.FormatTwoMinutesFive | src/main.ts:144-154 | `formatSeconds(125)` is "00:02:05" |
| Converter.OneEntryOutput | src/main.ts:194-204 | one entry 125 s after the start converts to `00:00:00 配信開始` and `00:02:05 memo` on two lines |
| Converter.ShortLinkEndToEnd | src/main.ts:156-204 | a `https://youtu.be/<id>` link, a key and a response with that start time convert a one-entry log to the expected two lines |
| Patterns.IsTrimmable | src/main.ts:62 | the code points `trim()` removes: ECMAScript WhiteSpace (tab, vertical tab, form feed, space, U+00A0, U+FEFF and the Zs space separators U+1680, U+2000-U+200A, U+202F, U+205F, U+3000) and LineTerminator (LF, CR, U+2028, U+2029) |
| Patterns.FirstKept | src/main.ts:62 | the first kept index lies between the starting index and the end |
| Patterns.LastKept | src/main.ts:62 | the kept end lies at or before the given end |
| Patterns.FirstKeptStops | src/main.ts:62 | trimming the front skips only trimmable characters and stops at the first other one |
| Patterns.LastKeptStops | src/main.ts:62 | trimming the back drops only trimmable characters and stops after the last other one |
| Patterns.FirstKeptAt | src/main.ts:62 | trimming the front stops exactly at the first character that is not trimmable |
| Patterns.LastKeptAt | src/main.ts:62 | trimming the back stops exactly after the last character that is not trimmable |
| Patterns.Trim | src/main.ts:62 | `trim()` leaves either nothing or text that starts and ends with a character that is not trimmable |
| Patterns.TrimIsInfix | src/main.ts:62 | `trim()` keeps one contiguous run and removes only trimmable characters before and after it |
| Patterns.TrimEmpty | src/main.ts:62-63 | the trimmed input is empty exactly when every character is whitespace or a line terminator |
| Patterns.TrimRemovesPadding | src/main.ts:62 | whitespace around trimmed text is removed and the text kept |
| Patterns.TrimIdempotent | src/main.ts:62 | trimming twice is trimming once |
| Patterns.TrimmedIsFixed | src/main.ts:62 | already trimmed text is left as it is |
| Patterns.SpliceStart | src/main.ts:77 | `splice`'s start: the index itself when in range, counted from the end when negative, clamped to 0 and to the length |
| Patterns.AddPattern | src/main.ts:62-64 | adding only appends: the old list is kept as a prefix and at most one label is added, which is the trimmed input, non-empty and not yet present |
| Patterns.RemoveAt | src/main.ts:77 | `splice(index, 1)` removes one label or none, and adds none (multiset inclusion) |
| Patterns.AddPatternKeepsUnique | src/main.ts:62-64 | adding keeps a duplicate-free list duplicate-free, and an appended label is trimmed and non-empty |
| Patterns.AddPatternResult | src/main.ts:62-64 | after adding, a non-empty trimmed input is in the list; the old labels keep their places; at most one label is added; an empty or present input changes nothing |
| Patterns.AddPatternIdempotent | src/main.ts:62-64 | adding the same input twice equals adding it once |
| Patterns.PaddedDuplicateIgnored | src/main.ts:62-63 | a present label typed again with whitespace around it changes nothing |
| Patterns.RemoveAtInRange | src/main.ts:77 | deleting at a valid index gives list[..i] + list[i+1..], one shorter, that label removed from the multiset |
| Patterns.RemoveAtNegative | src/main.ts:77 | a negative index deletes counting from the end |
| Patterns.RemoveAtPastEnd | src/main.ts:77 | an index at or past the end deletes nothing |
| Patterns.RemoveAtKeepsUnique | src/main.ts:77 | deleting keeps a duplicate-free list duplicate-free, and the deleted label is gone |
| Patterns.DefaultPatternsWellFormed | src/main.ts:2 | the four default labels `DefaultMemoPatterns` ("チャプター1", "面白かったところ", "重要なポイント", "質問") are distinct and already trimmed |
| Page.AppState.constructor | src/main.ts:216-235 | saved logs are loaded when present, else the log is empty; saved labels are loaded when present, else the defaults, which are then duplicate-free |
| Page.AppState.AddMemoPattern | src/main.ts:61-70 | only the label list changes, to the add rule's result; the input field is cleared exactly when a label was added; duplicate-freedom is kept |
| Page.AppState.DeleteMemoPattern | src/main.ts:76-81 | only the label list changes, to `splice(index, 1)`'s result, which for a valid index is the list without that label; duplicate-freedom is kept |
| Page.AppState.RecordTimestamp | src/main.ts:108-116 | only the log changes: it becomes the stable sort of old log + [new entry], is sorted, is a permutation of old + new, and on a sorted log the new entry sits after all not-later entries and before all later ones |
| Page.AppState.ResetLogs | src/main.ts:244-249 | the log becomes empty when confirmed and is unchanged otherwise |

## Left out

- DOM construction, rendering of the label list, the memo buttons and the log view, and the formatted date-time strings of the log view (`Intl.DateTimeFormat`): presentation only.
- `localStorage` and `JSON.parse`/`JSON.stringify`: saved data reaches the constructor as an optional value, and writes are not modelled. A saved value that is malformed JSON, or that is not an array, is not modelled.
- The API-key persistence handler and the copy-to-clipboard handler: they only move text between the page and storage or the clipboard.
- `fetch` and `response.json()`: the response is a parameter. Network errors, a body that is not JSON, and an ok response without an `items` array are not modelled. In the source these throw, and the message is shown in the error alert.
- `new Date(actualStartTime).getTime()`: the start time arrives as integer milliseconds. An unparsable date string (NaN offsets) is not modelled.
- `Date.now()`: the time of a recording is the `now` argument. `confirm` is the `confirmed` argument. `alert` becomes the `ConvertError` result.
- Converter.ElapsedSeconds: computed on integers. Its agreement with the source's division is proved over exact reals. IEEE double rounding is not modelled: not of the difference, not of the division by 1000, and not of the divisions inside `formatSeconds`. A hand estimate, not proved here, puts the first difference it can make at 2^52 ms (about 140,000 years) or more. Differences of up to 2^53 ms (2^43 seconds) keep the whole-second count.
- Clock.NatToString: `String(n)` writes numbers from 10^21 on in exponent notation. Only the hours field can get that large, from 10^21 hours (3.6·10^24 seconds) on. The model always writes plain digits.
- The busy state of the convert button around the request: UI state only.
- Concurrency: two conversions running at once, or a recording made while a conversion waits, are not modelled. The model runs each handler to completion.
