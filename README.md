# YouTube Takeout Analyzer: a model of the history parser and the aggregator

YouTube Takeout Analyzer is a browser page. It reads a Google Takeout export and charts
the viewer's watch history. This project models the two stages of `app.js` that do real
work, and proves properties of them.

- **The history parser** (`parseWatchHistory`). It walks the candidate content cells of
  the exported `watch-history.html` in document order. A cell is accepted when all of
  these hold:
  - its trimmed text starts with `Watched`;
  - it has at least two links;
  - the second link points into `youtube.com/channel`;
  - its inner markup splits into at least three pieces on `<br>`;
  - the third piece, trimmed and normalised, resolves to a valid date;
  - the trimmed video title and channel name are both non-empty.

  An accepted cell becomes one watch event. Every other cell is skipped.
- **The aggregator** (the counting parts of `analyzeAndDisplayData`). It folds the events
  into these results:
  - a channel counter, and the number of unique channels;
  - the ten channels with the highest counts;
  - a weekday counter, and the most active weekday;
  - a 24-slot hour histogram;
  - a year-month counter, its keys in default sort order, and the matching series of counts.

Modules:

- `Wrappers`: `Option`.
- `JsStrings`:
  - the JavaScript string operations the parser uses: `trim` over the ECMA-262 whitespace
    set, `startsWith`, `includes`, `split`, `join` and `replace(/…/g, …)`;
  - the conversions the month key uses: `padStart` and `String(n)`;
  - the default order of `Array.prototype.sort`.
- `Counters`: a JavaScript object used as a counter (`acc[k] = (acc[k] || 0) + 1`). It is
  an association list in key-insertion order, together with the fold that builds it.
- `Sorting`: the two sorts the aggregator calls. One orders entries by descending count;
  the other orders strings in the default order. Both are stable insertion sorts.
- `WatchHistory`:
  - the cell and event data;
  - the per-cell callback (`ParseCell`, carried out step by step by `ParseEntry`);
  - the parse loop (`ParseWatchHistory`);
  - the lemmas about the collected history.
- `Analysis`: the counters built by loops (`CountChannels`, `CountDays`, `CountMonths`,
  `HourlyCounts`), the ranking and series functions, their lemmas, and `Analyze`, which
  runs the whole aggregation.

The document tree is abstract. A cell is its text content, its links (display text and
target) and its inner markup. Resolving a date (`new Date(text)`) is a parameter
`parseDate: string -> Option<Timestamp>`. A `Timestamp` is already broken down in the
viewer's time zone: full year, zero-based month, hour and weekday.

## Model

| member | source | states |
|---|---|---|
| WatchHistory.ParseWatchHistory | app.js:95-143 | One pass over the cells in document order. The history it returns is exactly the events of the accepted cells, in cell order (`Collect`). |
| WatchHistory.ParseEntry | app.js:102-142 | The callback's early returns, taken in the source's order. The outcome is an event exactly when every check passes, and it equals the per-cell function `ParseCell`. |
| WatchHistory.ParseCellRejects | app.js:103-135 | A cell yields no event in each of these cases: its trimmed text does not start with `Watched`; it has fewer than 2 links; its second link does not include `youtube.com/channel`; it has at most 2 `<br>` pieces; its date does not resolve; its trimmed title or channel name is empty. |
| WatchHistory.ParseCellEmits | app.js:116-136 | An emitted event is valid (non-empty trimmed title and name, a channel URL that includes `youtube.com/channel`). Its title, URL, channel name and channel URL come from the first two links, and its timestamp is the resolved third `<br>` piece. |
| WatchHistory.ParseCellAccepts | app.js:103-136 | A cell that passes every check yields exactly the event built from its parts. |
| WatchHistory.CleanDate | app.js:131-132 | The normalised date text is the trimmed segment with every comma that precedes a space deleted. As written, the second replacement leaves the text unchanged. |
| WatchHistory.CollectValid | app.js:119-142 | Every collected event is valid, and there are no more events than cells. |
| WatchHistory.CollectOrder | app.js:102-142 | The history is the accepted cells' events at strictly ascending cell positions, one per accepted cell. Every accepted cell appears in it. |
| WatchHistory.OutcomesOrder | app.js:102-136 | The same ordering fact for any per-cell outcome function. |
| WatchHistory.CollectAppend | app.js:102-136 | The history of two runs of cells is the first run's history followed by the second's. |
| WatchHistory.RejectedCellIsSkipped | app.js:103-129 | Inserting a rejected cell anywhere does not change the history of the other cells. |
| WatchHistory.AcceptedCellIsKept | app.js:135-136 | An accepted cell adds exactly its own event, at its own place. |
| WatchHistory.AllAccepted | app.js:102-142 | When every cell is accepted, there is one event per cell. |
| JsStrings.TrimStart | app.js:103 | `trim` on the left: the result is a suffix of the input, only ECMA-262 whitespace was dropped, and the result does not start with whitespace. |
| JsStrings.TrimEnd | app.js:103 | `trim` on the right: the result is a prefix of the input, only whitespace was dropped, and the result does not end with whitespace. |
| JsStrings.TrimEnds | app.js:123-125 | A trimmed string is empty, or it neither starts nor ends with whitespace. |
| JsStrings.TrimIdempotent | app.js:123-125 | Trimming twice is the same as trimming once. |
| JsStrings.IncludesIff | app.js:119 | `includes` holds exactly when the pattern occurs at some position. |
| JsStrings.SplitSpec | app.js:128 | `split` on a non-empty separator: the first part is a prefix of the input, no part contains the separator, and joining the parts with the separator gives the input back. |
| JsStrings.ReplaceAllIsSplitJoin | app.js:132 | A global replace of a fixed pattern is the same as splitting on the pattern and joining with the replacement. |
| JsStrings.ReplaceAllSelf | app.js:132 | Replacing a pattern by itself changes nothing. |
| JsStrings.ReplaceCommaSpace | app.js:132 | `replace(/, /g, ' ')` deletes exactly the commas that precede a space. |
| JsStrings.PadStart | app.js:211 | `padStart`: the result ends with the input and is filled in front with the fill character up to the target length. An input already that long is unchanged. |
| JsStrings.NatToStringValue | app.js:211 | `String(n)` denotes `n`. |
| JsStrings.IntToStringInjective | app.js:211 | Different years are written differently. |
| JsStrings.LexLessTotal | app.js:215 | The default sort order is a strict total order on strings (with `LexLessIrreflexive` and `LexLessTransitive`). |
| JsStrings.LexLessDigits | app.js:211-215 | On digit strings of equal length, the default order is the numeric order. |
| Counters.Bump | app.js:155 | `acc[k] = (acc[k] \|\| 0) + 1`: `k`'s count grows by one, no other count changes, a new key is appended after the existing ones, and the total grows by one. The same update is made at lines 162 and 212. |
| Counters.BumpWellFormed | app.js:155 | Bumping keeps keys unique and every count at least 1. |
| Counters.TallySpec | app.js:154-157 | The fold counts, for every key, its number of occurrences. It lists exactly the keys that occur, with no key twice and every count at least 1, and the counts sum to the number of keys counted. |
| Counters.TallySize | app.js:158 | The counter has one entry per distinct key. |
| Counters.TallyEmpty | app.js:167 | The counter is empty exactly when nothing was counted. |
| Sorting.SortByCount | app.js:176 | `sort(([,a],[,b]) => b - a)`: the same entries, in non-increasing order of count. |
| Sorting.SortStrings | app.js:215 | `sort()`: the same strings, in non-descending default order. |
| Sorting.SortStringsStrict | app.js:215 | Sorting strings that have no repeats gives strictly ascending order. |
| Analysis.CountChannels | app.js:154-158 | The channel counter: each name's count is its number of occurrences, and it lists exactly the names that occur. Keys are unique, counts are at least 1, the counts sum to `history.length`, and the number of entries is the number of distinct channel names. |
| Analysis.CountDays | app.js:160-164 | The weekday counter: each weekday name's count is its number of occurrences, and the counts sum to `history.length`. |
| Analysis.CountMonths | app.js:209-213 | The month counter: each key's count is its number of occurrences, and the counts sum to `history.length`. |
| Analysis.TopChannelsSpec | app.js:176 | The top list has `min(10, distinct channels)` entries, non-increasing by count, with no channel twice. Every entry is a (channel, count) pair of the channel counter with a count of at least 1. Every channel left out has no larger count than any listed one. |
| Analysis.TopShape | app.js:176 | `slice(0, 10)` of the sorted entries: length `min(10, size)`, counts non-increasing. |
| Analysis.TopEntries | app.js:176 | Every top entry is an entry of the counter. |
| Analysis.TopDominates | app.js:176 | A key left out of the top list has no larger count than any listed one. |
| Analysis.MostActiveDaySpec | app.js:166-169 | The most active day is `'N/A'` exactly when the history is empty. Otherwise it is the weekday of some event, and no weekday has a higher count. |
| Analysis.MostActiveOfCounter | app.js:166-168 | On a non-empty counter, the first key after the descending sort is a key of the counter with the maximal count. |
| Analysis.MostActiveUnique | app.js:166-168 | A key counted strictly more often than every other key is the one chosen. |
| Analysis.HourlyCounts | app.js:192-193 | `Array(24).fill(0)`, then one increment per event at its hour. The result has 24 slots, slot `h` counts the events at hour `h`, and the slots sum to `history.length`. |
| Analysis.HourHistogramStep | app.js:193 | One more event adds one to the slot at its hour and changes no other slot. |
| Analysis.HourHistogramSum | app.js:192-193 | The slots sum to the number of events. |
| Analysis.MonthSeriesSpec | app.js:209-220 | The sorted month keys are each month key of the history exactly once, in strictly ascending default order. Each entry of the series is that key's number of events and is at least 1, and the series sums to `history.length`. |
| Analysis.SumOverKeys | app.js:215-220 | Looking up any rearrangement of a counter's keys gives counts that sum to the counter's total. |
| Analysis.MonthKeyInjective | app.js:211 | Two timestamps get the same month key exactly when they have the same year and zero-based month. |
| Analysis.MonthKeyChronological | app.js:211-215 | For four-digit years, the default order of month keys is the chronological order of (year, month). |
| Analysis.Analyze | app.js:150-220 | The whole aggregation in the source's order: totals, counters, unique channels, most active day (`'N/A'` exactly for an empty history), top channels, hour histogram and month series, with their sizes, orders and sums. The month keys are the sorted keys of the month counter, and each month datum is that key's count. |
| Analysis.HourScenario | app.js:192-193 | Events at hours 9, 9 and 23 give slot 9 the value 2, slot 23 the value 1, and every other slot 0. |
| Analysis.DayScenario | app.js:160-169 | One Monday and two Tuesdays are counted as 1 and 2, and Tuesday is the most active day. |

## Left out

- The page wiring is not modelled because it is interface and I/O: drag and drop, the file input, status and dashboard toggling, ZIP loading (`handleFile`, `findFileInZip`) and the reading of files.
- `DOMParser` and `querySelectorAll` are not modelled because they are foreign. Cells and their links are given as abstract data, in document order.
- `parseSubscriptions` (Papa.parse) is not modelled because it is a foreign CSV parser. Only the number of rows is used; `Analyze` takes the rows as a parameter.
- `new Date(text)` is not modelled because it is foreign and depends on locale and time zone. So are `getHours`, `getMonth`, `getFullYear` and `toLocaleDateString`. The parse is the `parseDate` parameter, and the results are the fields of `Timestamp`.
- The month labels (app.js:216-219) are not modelled because they are locale-dependent date formatting used only for chart labels.
- Chart.js construction and destruction, and `toLocaleString` number formatting, are not modelled because they are presentation.
- The `try`/`catch` around each cell: none of the modelled steps throws, so a caught exception and an early return are the same `None` outcome.
- Counters keep every key in insertion order. JavaScript lists integer-like keys (a channel named `2024` or `7`, say) first, in numeric order, in `Object.keys` and `Object.entries` (app.js:158, 176). Channel names can be integer-like, so the model's entry order can differ from the source's. This changes only which of several equally counted channels the stable sort lists first in the top list, and no contract states that order. Weekday names and `YYYY-MM` keys are never integer-like.
- Counters.Bump: the source's counter is a plain `{}` object, so `acc[k]` also reads properties inherited from `Object.prototype`. The model assumes no key names such a property (`__proto__`, `constructor`, `toString`, `valueOf`, `hasOwnProperty` and the like). For `__proto__` the source's assignment is ignored, and for the others the stored value becomes a string, not a count; the model counts such a key like any other. Weekday names and `YYYY-MM` keys never name one.
- Analysis.CountChannels: for the same reason, its count, sum (`history.length`) and distinct-entry claims, and those of `Counters.TallySize` and `Analysis.TopChannelsSpec`, hold only for histories in which no channel name names an `Object.prototype` property.
- Sorting.SortByCount: proved to be a non-increasing permutation. The order of equal counts (stable sort) is not stated, so the most active day and the top list are only proved to have maximal counts.
- JsStrings.LexLess: compares Unicode code points. JavaScript compares UTF-16 code units, and the two orders differ only for characters outside the Basic Multilingual Plane. Month keys contain only ASCII.
- WatchHistory.CleanDate: the second replacement on app.js:132 is written with a plain space as its pattern, so as written it is the identity, and the model follows the text. A no-break or narrow no-break space in the date text is therefore passed to the date parse unchanged.
