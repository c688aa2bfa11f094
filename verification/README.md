# LightUA outage schedules and address matching, in Dafny

LightUA shows electricity-outage schedules for the Cherkasy region. For a
date and a queue, it finds out which published JSON file covers the date:
the today file, the tomorrow file or the history file. It takes that queue's
list of power-off ranges (`"HH:MM-HH:MM"`) and turns it into a day timeline
of `on`/`off` segments with the day's outage statistics. A calendar of the
known dates drives the date picker. A small Python back end finds a street
address in the published text by matching tokens. The result card shows the
date as `DD.MM.YYYY` and the outage as whole hours.

This project models those decisions and proves properties about them:

- `Timeline` (`timeline.dfy`) models `generateExactTimeline`:
  - the ranges are parsed into an array and sorted in place by start (a stable insertion sort);
  - a `while` loop carries a cursor and a running total and sweeps the sorted array;
  - each method is proved equal to a specification function (`SortByStart`, `DaySpans`, `OffMinutes`, `ExactTimeline`).
- `TimeOfDay` (`time_of_day.dfy`) models `timeToMinutes` and `minutesToTime`, and proves the round trips between them.
- `TimelineProperties` (`timeline_properties.dfy`) states what the timeline promises:
  - the sort's order, permutation and stability;
  - the cursor's monotonicity;
  - the off-minute accounting;
  - for sorted, non-overlapping input, a gapless day from "00:00" to "24:00".
- `TimelineExamples` (`timeline_examples.dfy`) works through four concrete days, including overlapping ranges and a range ending at "00:00".
- `ScheduleService` (`schedule_service.dfy`) models `determineSourceForDate`, the selection and the errors of `fetchSchedule`, and `getCalendarInfo`. The three files are modelled as already-loaded values.
- `AddressTokens` (`address_tokens.dfy`) models the token matching of `address_search_api.py`:
  - a bounded Levenshtein distance, computed row by row with an early exit;
  - the per-token match;
  - greedy in-order matching;
  - the stop-word filter;
  - the token window of the house-number check.
- `ScheduleResult` (`schedule_result.dfy`) models `formatDate` and the rounding of off-minutes to hours.
- `JsStrings` (`js_strings.dfy`) models the JavaScript built-ins the core relies on:
  - `split`;
  - `Number` on digit strings;
  - `toString().padStart(2, '0')`;
  - string `<`;
  - `[...new Set(xs)].sort()`.
- `Wrappers` (`wrappers.dfy`) holds `Option` and `Result`.

Where the code and the intended behaviour differ, the model follows the code:

- **Overlaps are not merged.** Every off range whose end lies after its start becomes its own `off` segment, and its full length is added to the total. So `["10:00-12:00","11:00-13:00"]` gives four segments, `10:00-12:00 off` and `11:00-13:00 off` among them, with a total of 240 minutes and 17% (`TimelineExamples.OverlapsAreNotMerged`).
- **Any end of `00:00` is read as minute 1440.** `"00:00-00:00"` is therefore a full day off, not an empty range (`TimelineExamples.MidnightPairIsFullDayOff`).
- **The tomorrow file falls back to its first entry.** A date after the anchor is read from the tomorrow file. If that file has no usable entry for the date, its first entry is used, whatever its date (`ScheduleService.UnlistedFutureDateGetsFirstEntry`).
- **A missing anchor date selects history.** When the today file did not load, or has no key, `date > todayDate` compares against `null`/`undefined` and is false, so every date is looked up in the history file.
- There is no region filtering and no "empty payload" or "malformed input" error. The region in the result is always the constant `"Черкаська область"`. Malformed ranges are excluded by precondition instead (see below).

## Model

| member | source | states |
|---|---|---|
| TimeOfDay.MinutesRoundTrip | src/api/scheduleService.js:179-190 | every minute 0..1440 is written as a canonical "HH:MM" (1440 as "24:00") and reads back as the same minute |
| TimeOfDay.CanonicalRoundTrip | src/api/scheduleService.js:179-190 | every canonical time ("24:00", or zero-padded HH ≤ 23 and MM ≤ 59) reads as a minute ≤ 1440 and is written back as the same string |
| TimeOfDay.CanonicalValue | src/api/scheduleService.js:181-182 | a canonical time other than "24:00" reads as its hours times 60 plus its minutes |
| TimeOfDay.ZeroOnlyAtStartOfDay | src/api/scheduleService.js:179-183 | among canonical times, exactly "00:00" reads as minute 0, so the end-of-day rule applies to that spelling alone |
| TimeOfDay.CanonicalChars | src/api/scheduleService.js:185-190 | a written time consists of digits and the colon only |
| JsStrings.Split | src/api/scheduleService.js:130 | `split` yields at least one part, no part contains the separator, and joining the parts with it gives the input back |
| JsStrings.SplitOfJoin | src/api/scheduleService.js:130 | splitting parts that were joined on a separator they do not contain gives those parts back |
| JsStrings.DecimalString | src/api/scheduleService.js:189 | `toString` of a whole number is a non-empty digit string whose value is that number, one digit long below 10 and two digits long from 10 to 99 |
| JsStrings.PadStart2 | src/api/scheduleService.js:189 | `padStart(2, '0')` makes the string at least two characters long by putting '0's in front of it, and changes nothing else |
| JsStrings.PaddedValue | src/api/scheduleService.js:187-189 | the padded decimal spelling of a whole number is all digits and reads back as that number |
| JsStrings.LexIrreflexive | src/api/scheduleService.js:122 | no string is less than itself |
| JsStrings.LexTransitive | src/api/scheduleService.js:122 | string `<` is transitive |
| JsStrings.LexTotal | src/api/scheduleService.js:122 | of two strings, one is less than the other or they are equal |
| JsStrings.LexAsymmetric | src/api/scheduleService.js:122 | two strings are never each less than the other |
| JsStrings.Dedupe | src/api/scheduleService.js:102 | `new Set` keeps every element exactly once: the result has no duplicates and the same elements as the input |
| JsStrings.SortStrings | src/api/scheduleService.js:102 | the default `sort` returns a list of the same length with the same elements |
| JsStrings.SortStringsAscending | src/api/scheduleService.js:102 | sorting a duplicate-free list makes it strictly ascending |
| JsStrings.AscendingUnique | src/api/scheduleService.js:102 | two strictly ascending lists with the same elements are equal |
| Timeline.ParseCanonicalRange | src/api/scheduleService.js:129-135 | a range of two canonical times around '-' is well formed; its start is the first time's minute; its end is 1440 when the second time is "00:00" and that time's minute otherwise |
| Timeline.InsertIntoPrefix | src/api/scheduleService.js:137 | one insertion step of the in-place sort: the sorted prefix with a[i] inserted after every interval starting no later; the rest of the array is unchanged |
| Timeline.SortByStartInPlace | src/api/scheduleService.js:137 | the array ends up as the stable sort by start of its old contents |
| Timeline.Sweep | src/api/scheduleService.js:139-168 | the loop's segments and total are those of the sweep function `DaySpans`/`OffMinutes` over the sorted intervals |
| Timeline.Percentage | src/api/scheduleService.js:174 | the percentage is the nearest whole number to total/1440·100, with halves rounded up |
| Timeline.RenderAll | src/api/scheduleService.js:145-167 | one rendered segment per span, in order, with each start and end written by `minutesToTime` |
| Timeline.GenerateExactTimeline | src/api/scheduleService.js:128-177 | the timeline and statistics are those of `ExactTimeline`: parse, stable sort by start, sweep, render |
| TimelineProperties.SortByStartSorted | src/api/scheduleService.js:137 | the intervals are handled in ascending start order |
| TimelineProperties.SortByStartPermutes | src/api/scheduleService.js:137 | the sort is a permutation: the same multiset of intervals |
| TimelineProperties.SortByStartStable | src/api/scheduleService.js:137 | the sort is stable: intervals with the same start keep their input order |
| TimelineProperties.SortedIsFixed | src/api/scheduleService.js:137 | sorting already-sorted intervals leaves them as they are |
| TimelineProperties.CursorNeverDecreases | src/api/scheduleService.js:158 | the cursor never decreases across the sweep |
| TimelineProperties.DegenerateIntervalIsInert | src/api/scheduleService.js:151-159 | an interval whose end is not after its start adds no minutes, leaves the cursor where it is, and adds at most the `on` gap before it |
| TimelineProperties.OffTotalIsOffSegmentLength | src/api/scheduleService.js:151-159 | the `off` segments are exactly the intervals with end > start, in order, and the total is the sum of their lengths |
| TimelineProperties.DisjointDayIsGapless | src/api/scheduleService.js:143-168 | for sorted, non-overlapping intervals within the day: the segments run from 0 to 1440, each ends where the next starts, none is empty, and their lengths sum to 1440 |
| TimelineProperties.DisjointTotalWithinDay | src/api/scheduleService.js:157-174 | for such intervals the total is at most 1440 minutes and the percentage at most 100 |
| TimelineProperties.ExactTimelineGapless | src/api/scheduleService.js:128-177 | for ranges that parse into sorted, non-overlapping intervals, the rendered timeline starts at "00:00", ends at "24:00", is chained end to start, and uses canonical times only |
| TimelineExamples.EmptyScheduleIsAllOn | src/api/scheduleService.js:139-176 | no ranges give the single segment 00:00-24:00 on, 0 minutes, 0% |
| TimelineExamples.MidnightEndExample | src/api/scheduleService.js:133 | ["22:00-00:00"] gives 00:00-22:00 on and 22:00-24:00 off, 120 minutes, 8% |
| TimelineExamples.MidnightPairIsFullDayOff | src/api/scheduleService.js:133 | ["00:00-00:00"] gives the single segment 00:00-24:00 off, 1440 minutes, 100% |
| TimelineExamples.OverlapsAreNotMerged | src/api/scheduleService.js:151-159 | ["10:00-12:00","11:00-13:00"] gives four segments, the two off ranges overlapping, 240 minutes, 17% |
| ScheduleService.AvailableDatesAscending | src/api/scheduleService.js:102 | the calendar's dates are strictly ascending and are exactly the collected dates |
| ScheduleService.AvailableDatesAreCanonical | src/api/scheduleService.js:102 | any strictly ascending list of exactly the collected dates is the calendar's list |
| ScheduleService.GetCalendarInfo | src/api/scheduleService.js:67-110 | the anchor is the today file's first key; the dates are today's key, tomorrow's non-empty first key and every history date, deduplicated and strictly ascending |
| ScheduleService.DetermineSourceForDate | src/api/scheduleService.js:115-126 | today iff the date equals the anchor; tomorrow iff the anchor is less than the date; history iff there is no anchor or the date is less than it |
| ScheduleService.FeedLookup | src/api/scheduleService.js:35 | `data[date]` is an entry of the file with that date, and is missing only when no entry has that date |
| ScheduleService.FindHistory | src/api/scheduleService.js:28 | `find` returns the first history entry with the date, and nothing only when no entry has it |
| ScheduleService.FetchSchedule | src/api/scheduleService.js:9-63 | success iff a schedule is selected and the queue is in it; the result carries the region, the queue, the date and the queue's exact timeline; otherwise the selection's error or "queue not found" |
| ScheduleService.TodayTakesPrecedence | src/api/scheduleService.js:119 | a date equal to the anchor is answered from the today file alone: the other files make no difference |
| ScheduleService.FutureDateReadsTomorrow | src/api/scheduleService.js:122 | a date after the anchor reads its own entry of the tomorrow file, else that file's first entry, else "not found" |
| ScheduleService.UnlistedFutureDateGetsFirstEntry | src/api/scheduleService.js:35 | a later date that the tomorrow file does not list gets the file's first schedule |
| ScheduleService.PastDateReadsFirstHistoryMatch | src/api/scheduleService.js:25-40 | a date before the anchor, or any date when there is no anchor, reads the first history entry with that date, and is "not found" when there is none |
| AddressTokens.LevAtLeastLengthGap | public/backend/address_search_api.py:96-97 | the edit distance is at least the difference of the lengths, so the length check never rejects a close pair |
| AddressTokens.LevSelfZero | public/backend/address_search_api.py:120-121 | a token is at distance 0 from itself |
| AddressTokens.RowBoundPersists | public/backend/address_search_api.py:114-115 | once every entry of a row exceeds the budget, so does the final distance, so the early exit never hides a distance within it |
| AddressTokens.NextRow | public/backend/address_search_api.py:100-113 | the inner loop computes the next row of the Levenshtein table and that row's minimum: at most every entry and equal to one of them |
| AddressTokens.TokenDistance | public/backend/address_search_api.py:95-117 | the result is the true edit distance, or it is max_edits + 1 and the true distance exceeds max_edits; a length gap over max_edits gives max_edits + 1 |
| AddressTokens.DistanceWithinBudget | public/backend/address_search_api.py:95-117 | a result within the budget is the true distance, and the true distance is within the budget exactly when the result is |
| AddressTokens.TokenMatchesItself | public/backend/address_search_api.py:119-121 | every token matches itself |
| AddressTokens.TokenIsMatch | public/backend/address_search_api.py:119-123 | true iff the edit distance from the token to the candidate is within the token's budget: 1 edit for tokens of up to four characters, 2 for longer ones (an equal candidate is at distance 0) |
| AddressTokens.TokensMatchSequence | public/backend/address_search_api.py:125-139 | true iff both lists are non-empty and the query tokens match line tokens at strictly increasing positions |
| AddressTokens.FilterTriggerTokens | public/backend/address_search_api.py:74-88 | the result is the input with stop-words, all-digit tokens and tokens shorter than 2 removed |
| AddressTokens.KeptTokensMembers | public/backend/address_search_api.py:74-88 | the filtered tokens contain no stop-word, no all-digit token and no token shorter than 2, and keep every input token that is none of these |
| AddressTokens.KeptTokensAppend | public/backend/address_search_api.py:80-87 | the filter works token by token, preserving order: filtering a concatenation concatenates the filtered parts |
| AddressTokens.LineHasNumber | public/backend/address_search_api.py:147-163 | false for an empty number; otherwise true iff the regex matched, or the number has tokens and they occur as a contiguous run in the line's tokens |
| ScheduleResult.FormatDate | src/components/ScheduleResult.jsx:24-29 | a missing or empty date gives ""; a date that does not split on '-' into three parts is returned unchanged |
| ScheduleResult.FormatDateKeepsLength | src/components/ScheduleResult.jsx:26-28 | for a three-part date the output has the input's length |
| ScheduleResult.FormatDateInverse | src/components/ScheduleResult.jsx:26-28 | for a three-part date without '.', splitting the output on '.' gives the parts reversed, so the input can be rebuilt |
| ScheduleResult.FormatThreeParts | src/components/ScheduleResult.jsx:28 | "a-b-c" becomes "c.b.a" for any parts without '-' |
| ScheduleResult.FormatDateExample | src/components/ScheduleResult.jsx:28 | "2025-01-10" becomes "10.01.2025" |
| ScheduleResult.OffHoursText | src/components/ScheduleResult.jsx:21 | the hours figure is the nearest whole number of hours, with halves rounded up |

## Left out

- Network and JSON: `fetch`, `async`/`await`, `response.json()` and `console.error` are not modelled. Each of the three files is a value that is either loaded (`Some`) or not (`None`), including when `response.ok` is false or the body is not valid JSON. An exception thrown part-way through `getCalendarInfo` is not modelled either; in the source it returns the dates gathered so far.
- ScheduleService.GetCalendarInfo: a today file that loads but has no key pushes `undefined` onto the date list, where the default sort places it last. The model collects no date in that case.
- ScheduleService.FetchSchedule: queue lists are modelled as always present. A queue whose value is `null` in the JSON (which the source reports as a missing queue) is not modelled. Neither is a queue name that is an inherited object property such as `constructor`.
- ScheduleService.FetchSchedule: a history file that is not an array is modelled as not loaded. The "no source" branch (`if (!source)`) cannot be taken, because `determineSourceForDate` always returns a source; it has no counterpart.
- ScheduleService.FetchSchedule: only the selected queue's ranges must be well formed (the ranges the source parses); malformed ranges there are not modelled, as for `Timeline.ParseRange`.
- ScheduleService.DetermineSourceForDate: string `<` is modelled as lexicographic order on characters, not on UTF-16 code units. The two agree on ISO dates.
- Timeline.Percentage: `Math.round((total / 1440) * 100)` is modelled in exact arithmetic. The floating-point result could differ where the exact value is a half.
- Timeline.ParseRange: ranges must be well formed. That means exactly two times around one '-', each made of non-empty ASCII digit strings around one ':'. The source's behaviour on other input is not modelled: `Number` yielding `NaN`, or extra `-`/`:` parts being ignored.
- Timeline.GenerateExactTimeline: the source writes each segment's times with `minutesToTime` as it pushes the segment. The model writes them all after the sweep. The resulting list is the same.
- AddressTokens.FilterTriggerTokens: `str.isdigit` is modelled for ASCII digits only. Python also accepts other Unicode digits.
- AddressTokens.LineHasNumber: the regex search and the normalisation of the line and the number are not modelled. The regex outcome and the two token lists are parameters.
- The rest of the address search is not part of this model: PDF loading and its cache, `SequenceMatcher`-based fuzzy similarity, `search`/`search_simple` with their float-ranked results, and the Flask server. These are library code, float arithmetic or I/O.
- The React UI is not part of this model: `App.jsx`, the form, the header, the footer and the rest of `ScheduleResult.jsx`.
