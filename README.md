# PercentileTraffic, modelled in Dafny

PercentileTraffic is a browser tool for log analysis. It reads a log file in which every line may hold a
JSON object, keeps the records that pass a service filter, an error-code filter and a time window, and
groups the numeric value of a chosen field by service. For every service it then reports:

- a box (minimum, quartiles, maximum);
- one row per requested percentile, picked by nearest rank or linear interpolation;
- the medians.

It also builds a time series: each record's value is filed into a fixed-width time bucket, and each
bucket reports a percentile of its values.

This project models the core of that tool:

- the helpers of `src/app/utils.ts`: `parsePercentiles`, `nearestRank`, `linearInterp` and `extractJson`;
- the `App` component of `src/app/app.ts`: its settings and its stored results, `setFile`, `analyze`,
  `refreshTimeSeries` and `computeTimeBuckets`;
- the timestamp helpers `extractTimestampMs`, `normalizeTimestamp`, `normalizeEpoch` and `getValidTime`,
  and `getPicker`.

It proves properties of that model.

Layout, one module per file:

- `wrappers.dfy`: `Option`.
- `foreign.dfy`: JavaScript values. `Env` stands for the built-ins the code calls, which the model does
  not define: `JSON.parse`, `Number`, `String`, `Date.parse`, `toFixed(6)` and the bucket label.
- `jsstring.dfy`: `trim` and the blank-line count.
- `sorting.dfy`: the ascending sort.
- `tally.dfy`: grouping key/value pairs in insertion order, as `(groups[key] ||= []).push(val)` and
  `Map.set` do.
- `utils.dfy`: `utils.ts`.
- `timestamps.dfy`: timestamp recognition.
- `analysis.dfy`: the pass of `analyze` over the lines, and the summaries of each group, as functions.
- `buckets.dfy`: the time series as functions.
- `app.dfy`: the loops as methods proved against those functions, and the `App` class whose methods
  update its fields.

Numbers are mathematical reals. A value whose `Number` is NaN or infinite is `None`.

## Model

| member | source | states |
|---|---|---|
| Utils.IndexOf | src/app/utils.ts:27 | -1 exactly when the character is absent, otherwise its first position |
| Utils.LastIndexOf | src/app/utils.ts:28 | -1 exactly when the character is absent, otherwise its last position |
| Utils.ExtractJson | src/app/utils.ts:26-35 | nothing when the line lacks `{` or `}` or the last `}` comes before the first `{`; otherwise the decoding of the text from the first `{` to the last `}` inclusive (a failed parse is nothing) |
| Utils.SplitTokens | src/app/utils.ts:3 | at least one token; no token contains a space or a comma; only the first and the last token can be empty |
| Utils.SplitTokensRoundTrip | src/app/utils.ts:3 | between each two tokens lies one non-empty run of spaces and commas, and joining the tokens with those runs gives back the input; as no token holds a separator, the runs are maximal |
| Utils.SplitStep | src/app/utils.ts:3 | the first token is the text before the first separator, a non-empty run of separators follows, and the remaining tokens are those of the text after that run |
| Utils.JoinSnoc | src/app/utils.ts:3 | joining ends with the last run and the last token |
| Utils.SplitTokensFirst | src/app/utils.ts:3 | the first token is empty exactly when the input is empty or starts with a space or a comma |
| Utils.SplitTokensLast | src/app/utils.ts:3 | the last token is empty exactly when the input is empty or ends with a space or a comma |
| Utils.SplitTokensKeepsEverythingElse | src/app/utils.ts:3 | the tokens, joined, are the input with every space and comma removed: splitting loses nothing else |
| Utils.KeepPercentiles | src/app/utils.ts:4-5 | no more values than tokens, each strictly between 0 and 100 |
| Utils.KeepPercentilesMembers | src/app/utils.ts:4-5 | a value is kept if and only if some token converts to it and it lies strictly between 0 and 100 |
| Utils.KeepPercentilesAppend | src/app/utils.ts:4-5 | the filter keeps the token order: filtering a concatenation concatenates the results |
| Utils.KeepPercentilesAllValid | src/app/utils.ts:4-5 | when every token is a valid percentile, the result is exactly their numbers in order |
| Utils.ParsePercentiles | src/app/utils.ts:1-6 | every percentile returned lies strictly between 0 and 100 |
| Utils.Ceil | src/app/utils.ts:11 | `Math.ceil`: the least integer not below x |
| Utils.NearestRankIndex | src/app/utils.ts:11-12 | the clamped index lies inside the array |
| Utils.NearestRank | src/app/utils.ts:8-13 | NaN (nothing) exactly for the empty array; otherwise an element of the array |
| Utils.NearestRankIsLeastRank | src/app/utils.ts:11-12 | for p in (0, 100] the index is the least k with (k+1)·100 ≥ p·n: the nearest-rank definition |
| Utils.NearestRankMonotone | src/app/utils.ts:8-13 | on a sorted array a larger p never gives a smaller value |
| Utils.LinearInterp | src/app/utils.ts:15-24 | NaN (nothing) for the empty array; a value for any non-empty array and p ≥ 0 |
| Utils.LinearInterpValue | src/app/utils.ts:18-23 | lo ≤ hi < n and hi ≤ lo + 1, and the value interpolates between the elements at lo and hi by the fraction of the position |
| Utils.LinearInterpAtIndex | src/app/utils.ts:18-23 | a position that falls exactly on index k gives the element at k |
| Utils.LinearInterpHundred | src/app/utils.ts:18-22 | p = 100 gives the last element |
| Utils.LinearInterpBetween | src/app/utils.ts:15-24 | on a sorted array the value lies between its two neighbours, and between the minimum and the maximum |
| Utils.LinearInterpMonotone | src/app/utils.ts:15-24 | on a sorted array a larger p in [0, 100] never gives a smaller value |
| Timestamps.NormalizeEpoch | src/app/app.ts:269-274 | above 1e12 kept as milliseconds, above 1e9 and up to 1e12 scaled from seconds by 1000, otherwise refused; a result is always above 1e12 |
| Timestamps.NormalizeEpochIdempotent | src/app/app.ts:269-274 | normalising an accepted result again changes nothing |
| Timestamps.NormalizeTimestamp | src/app/app.ts:254-267 | null or missing gives nothing; a number goes through normalizeEpoch; a string is first tried as an epoch, and is then parsed as a date; any other type gives nothing |
| Timestamps.FirstTimestamp | src/app/app.ts:245-251 | nothing exactly when no key is present with a usable value; otherwise the value of the first such key |
| Timestamps.ExtractTimestampMs | src/app/app.ts:234-252 | nothing exactly when none of the eight candidate keys is present with a usable value |
| Timestamps.TimestampKeyWins | src/app/app.ts:236-250 | a usable `timestamp` field wins over every other candidate |
| Timestamps.GetValidTime | src/app/app.ts:276-280 | the time of the date when there is one and it is valid, nothing otherwise |
| JsString.Trim | src/app/app.ts:112-114 | the result is the input without its leading and trailing white space: the result is the input from its first non-space character on, and everything after it in the input is white space; it is empty exactly for a blank string, and otherwise starts and ends with a non-space character |
| JsString.TrimOfSpaceFree | src/app/app.ts:112 | a string without white space is its own trim (so the default `'duration'` is used as it is) |
| JsString.HasTextIffNotBlank | src/app/app.ts:108 | `l.trim().length > 0` holds exactly for the lines that are not blank |
| JsString.NonBlankCount | src/app/app.ts:108 | `totalLines` never exceeds the number of lines |
| JsString.NonBlankCountCountsNonBlank | src/app/app.ts:108 | it counts every line exactly when no line is blank, and none exactly when all are |
| Sorting.SortAsc | src/app/app.ts:151 | `sort((a, b) => a - b)`: the result is sorted ascending, a permutation of the input, and of the same length |
| Sorting.SortAscMembers | src/app/app.ts:151 | sorting keeps exactly the same elements |
| Sorting.SortedPermutationUnique | src/app/app.ts:151 | two sorted permutations of the same values are equal, so any correct ascending sort gives this result |
| Sorting.SortAscOfDistinct | src/app/app.ts:210-211 | distinct keys, once sorted, are strictly ascending |
| Tally.FirstOccurrences | src/app/app.ts:150 | the insertion order of the keys: no repeats, and exactly the keys that occur |
| Tally.GroupStep | src/app/app.ts:137 | one more pair appends its value to its key's group, and a new key joins the insertion order at the end |
| Tally.GroupByHoldsValues | src/app/app.ts:136-137 | the groups are exactly the keys that occur; each holds the values paired with it in order, as many as the key occurs |
| Tally.GroupsNonEmpty | src/app/app.ts:137 | no group is empty |
| Tally.GroupSizesAddUp | src/app/app.ts:137 | the group sizes, over the insertion order, add up to the number of pairs |
| Analysis.Pick | src/app/app.ts:230-232 | the chosen picker applied: a value for a non-empty array and p in (0, 100], between the minimum and the maximum of a sorted array, and an element of the array for nearest rank |
| Analysis.GetPicker | src/app/app.ts:230-232 | `getPicker()` is nearestRank for `nearest` and linearInterp otherwise; applied, it is `Pick` |
| Analysis.GroupKey | src/app/app.ts:136 | `obj.serviceCode \|\| 'unknown'`: "unknown" for a falsy service code, and a non-empty string code as it is |
| Analysis.Classify | src/app/app.ts:126-141 | a line without an object is not matched; with a service filter, every accepted record belongs to that service; every accepted time lies inside the window |
| Analysis.ClassifyAccepts | src/app/app.ts:126-141 | an object is accepted exactly when it passes the service filter, the error-code filter (`String(obj.errorCode)`), the time window when its time resolved, and `Number(obj[field])` is finite; it is then filed under `serviceCode \|\| 'unknown'` with that number and its resolved time |
| Analysis.TimeWindowFilter | src/app/app.ts:131-133 | the time bounds drop exactly the records whose time is known and outside the inclusive window; a record without a time always passes them |
| Analysis.Outcomes | src/app/app.ts:125-142 | one outcome per line, in file order, each that of its own line |
| Analysis.MatchedCount | src/app/app.ts:125-128 | `totalMatched`: never more than the lines |
| Analysis.ValidCount | src/app/app.ts:128-138 | `totalValid`: never more than `totalMatched` |
| Analysis.Timeline | src/app/app.ts:138-141 | at most one timeline point per valid record |
| Analysis.TimelineFrom | src/app/app.ts:139-141 | every timeline point is the resolved time and the value of an accepted record |
| Analysis.AcceptedOnTimeline | src/app/app.ts:139-141 | every accepted record whose time resolved is on the timeline |
| Analysis.GroupsOf | src/app/app.ts:136-137 | the groups of the pass; none is empty |
| Analysis.GroupKeys | src/app/app.ts:150 | the keys that `Object.entries` visits: no repeats, and exactly the keys of the groups |
| Analysis.MatchedCountIsJsonLines | src/app/app.ts:126-128 | `totalMatched` counts exactly the lines holding an object, whatever the filters |
| Analysis.AcceptedPairsCount | src/app/app.ts:137-138 | one pushed value per valid record |
| Analysis.AcceptedPairsFrom | src/app/app.ts:136-137 | every pushed key and value comes from an accepted record |
| Analysis.AcceptedInGroup | src/app/app.ts:136-137 | the value of every accepted record is in the group of its key |
| Analysis.ServiceFilterGroups | src/app/app.ts:129-137 | with a service filter, the only group is that service |
| Analysis.ValidIsSumOfGroups | src/app/app.ts:137-138 | `totalValid` equals the total size of the groups |
| Analysis.Round | src/app/app.ts:158 | rounding keeps a value a value and NaN NaN |
| Analysis.BoxOf | src/app/app.ts:152-155 | min and max are the first and last element; the quartiles are elements of the array, and on a sorted array min ≤ q1 ≤ q2 ≤ q3 ≤ max |
| Analysis.GroupRows | src/app/app.ts:156-158 | one row per percentile |
| Analysis.GroupRowsAt | src/app/app.ts:156-158 | row j is the service, the j-th percentile and the rounded pick of that percentile |
| Analysis.GroupMedians | src/app/app.ts:156-159 | one median per occurrence of 50 among the percentiles, each the service with the pick of 50 |
| Analysis.Entries | src/app/app.ts:150 | one entry per key in order, paired with that key's array |
| Analysis.BoxesOf | src/app/app.ts:150-155 | one box per entry |
| Analysis.BoxesOfAt | src/app/app.ts:150-155 | the g-th box is the box of the g-th entry |
| Analysis.RowsOf | src/app/app.ts:150-160 | one row per group and percentile |
| Analysis.MediansOf | src/app/app.ts:150-161 | one median per group and occurrence of 50 |
| Analysis.MediansFrom | src/app/app.ts:150-161 | every median is the service of some entry with the pick of 50 of that entry's array |
| Analysis.RowsDefined | src/app/app.ts:156-158 | every row has a value when the groups are non-empty and the percentiles are valid |
| Buckets.BucketWidth | src/app/app.ts:196 | a positive bucket length gives a positive width |
| Buckets.BucketStart | src/app/app.ts:201 | the start of a point's bucket is at most its time, and the time lies within one width of it |
| Buckets.BucketStartUnique | src/app/app.ts:201 | the start is the multiple of the width whose bucket holds the time |
| Buckets.BucketPairs | src/app/app.ts:200-201 | each point paired with its bucket start and its value, in timeline order |
| Buckets.MakeBucket | src/app/app.ts:212-219 | a bucket keeps its start and counts its values |
| Buckets.Emit | src/app/app.ts:212-220 | one bucket per start, each made from that start's values |
| Buckets.SortedStarts | src/app/app.ts:210-211 | strictly ascending, and exactly the starts in the map |
| Buckets.BucketSeriesAscending | src/app/app.ts:210-211 | the buckets come out with strictly ascending starts |
| Buckets.BucketSeries | src/app/app.ts:194-222 | one bucket per distinct start, the k-th bucket having the k-th start in ascending order |
| Buckets.StartOfPoint | src/app/app.ts:200-208 | the start of every point is among the bucket starts |
| Buckets.PointOfStart | src/app/app.ts:200-208 | every bucket start is the start of some point |
| Buckets.BucketOfPoint | src/app/app.ts:194-222 | every point has a bucket with its start |
| Buckets.PointOfBucket | src/app/app.ts:194-222 | every bucket holds the start of some point |
| Buckets.BucketsCoverPoints | src/app/app.ts:194-222 | every point's time lies in some bucket |
| Buckets.BucketsHoldPoints | src/app/app.ts:194-222 | every bucket holds the time of some point |
| Buckets.BucketContents | src/app/app.ts:194-222 | a bucket counts exactly the points filed under its start, and its value is the rounded percentile of those values sorted |
| Buckets.TotalCountOfEmit | src/app/app.ts:212-219 | the bucket counts add up to the sizes of the buckets' value lists |
| Buckets.BucketCountsAddUp | src/app/app.ts:194-222 | the counts of the series add up to the number of points |
| PercentileApp.DateBound | src/app/app.ts:115-118 | an empty date setting is no bound; otherwise the bound is the parsed time, nothing when invalid |
| PercentileApp.FiltersOf | src/app/app.ts:112-118 | the field is `(fieldName \|\| 'duration').trim()`, the service and error filters are trimmed, and each date bound is that of its date setting |
| PercentileApp.DefaultFieldTrimmed | src/app/app.ts:112 | trimming the default field name leaves `duration` |
| PercentileApp.SortGroups | src/app/app.ts:150-151 | the same keys, each array sorted and a permutation of the original |
| PercentileApp.SortedEntries | src/app/app.ts:150-151 | the i-th entry is the i-th key with its array sorted |
| PercentileApp.Scan | src/app/app.ts:122-142 | the loop over the lines computes the matched and valid counts, the groups, their insertion order and the timeline of the pass |
| PercentileApp.Absorb | src/app/app.ts:127-141 | a line with an object is matched; an accepted record is valid, and adds a timeline point when its time is known |
| PercentileApp.Push | src/app/app.ts:137 | `(groups[key] \|\|= []).push(val)`: the value is appended to its key's group, created empty when new; a new key joins the order; groups and order stay those of the pairs filed so far |
| PercentileApp.Summarize | src/app/app.ts:150-161 | the loop over the entries gives the boxes, rows and medians of the sorted entries, and the groups sorted |
| PercentileApp.SummarizeGroup | src/app/app.ts:151-160 | one entry: the box of the sorted array, a row per percentile and a median per 50 |
| PercentileApp.Analyse | src/app/app.ts:108-161 | the counters, sorted groups, boxes, rows, medians and timeline are those of `AnalysisReport` |
| PercentileApp.AnalysisReport | src/app/app.ts:108-161 | timeline points ≤ `totalValid` ≤ `totalMatched` ≤ lines; `totalMatched` is the number of lines holding an object; `totalLines` ≤ lines |
| PercentileApp.ReportBoxes | src/app/app.ts:144-155 | the stored groups are non-empty and sorted; one box per group and no service twice; each box is the box of its group as stored |
| PercentileApp.EntriesBoxes | src/app/app.ts:150-155 | the same, for any groups visited once each in a given order |
| PercentileApp.EntriesBoxesAt | src/app/app.ts:150-155 | the i-th box belongs to the i-th key and is the box of its sorted array |
| PercentileApp.BoxesFollowOrder | src/app/app.ts:150-155 | boxes that follow an order listing each group once name every group exactly once, each box that of its own group |
| PercentileApp.ReportRows | src/app/app.ts:156-160 | the rows number boxes × percentiles, and every row has a value |
| PercentileApp.EntriesRows | src/app/app.ts:156-160 | the same, for any non-empty groups and valid percentiles |
| PercentileApp.ReportGroupSizes | src/app/app.ts:137-151 | the stored (sorted) groups still hold `totalValid` values in all |
| PercentileApp.SortedLengths | src/app/app.ts:151 | sorting the groups keeps their sizes |
| PercentileApp.SeriesAlert | src/app/app.ts:170-182 | no alert exactly for usable settings; the bucket length is blamed exactly when it is unusable, and the percentile only when the length is fine |
| PercentileApp.TimeSeries | src/app/app.ts:166-192 | the series counts every point when the settings are usable, and is empty otherwise |
| PercentileApp.NoPointsNoBuckets | src/app/app.ts:184-188 | no points give no buckets |
| PercentileApp.BucketPairsStep | src/app/app.ts:200-201 | one more point adds its pair at the end |
| PercentileApp.FileIntoBuckets | src/app/app.ts:198-208 | the loop builds the `Map` from bucket start to values, with the starts in insertion order |
| PercentileApp.App.constructor | src/app/app.ts:66-93 | the default settings ("duration", percentiles "50, 80, 90, 95, 99, 99.5, 99.7", nearest, 5 minutes, 99), no file, nothing analysed |
| PercentileApp.App.SetFile | src/app/app.ts:95-97 | the file is the one given; nothing else changes |
| PercentileApp.App.Analyze | src/app/app.ts:99-164 | without a file: the alert and no change. Otherwise no alert; the stored results are the report of the file's lines under the current settings; the series is refreshed silently |
| PercentileApp.App.Store | src/app/app.ts:144-148 | the stored results become the report given |
| PercentileApp.App.RefreshTimeSeries | src/app/app.ts:166-192 | alerts for the first unusable setting unless silent; the stored series is that of the stored points, empty for unusable settings; only `timeBuckets` changes |
| PercentileApp.App.ComputeTimeBuckets | src/app/app.ts:194-222 | for a positive length and a percentile in (0, 100], the result is the bucket series of the stored points |

## Left out

- Reading the file (`await file.text()`) and splitting it at line breaks are not modelled. A file is given
  as its lines.
- `analyze` is `async`. Interleaving with other calls while it waits for the file is not modelled.
- The alert texts are reduced to the `Alert` values. `alert`, `renderCharts`, `renderTimeChart`,
  Chart.js, the `title` signal and the canvases are not modelled.
- `formatBucketLabel` depends on the local time zone. It is the `bucketLabel` field of `Env`.
- These built-ins are fields of `Env`, constrained only by their types:
  - `JSON.parse`: `decode`, which gives nothing when parsing throws;
  - `Number`;
  - `String`;
  - `new Date(text).getTime()` and `Date.parse`: `dateParse`;
  - `toFixed(6)` followed by `Number`: `round6`.
- Floating point is not modelled. Numbers are exact reals, and NaN and the infinities are `None`. The
  time settings are therefore `Option<real>`, with `None` for a setting whose `Number` is not finite.
  A JSON number literal too large for a double, which `JSON.parse` reads as Infinity, is not a value of
  the model; `normalizeEpoch` refuses such a number, so as a time it is the same as a missing one.
- `Object.entries` lists integer-like keys first, in numeric order. The model always uses insertion order.
  This matters only for services named like array indices.
- App.Analyze: a service code that names a property of `Object.prototype` (`constructor`, `toString`,
  `__proto__` and the like) is not modelled. For it, `groups[key] ||= []` finds the inherited value, which
  is truthy, and `.push` throws a TypeError. `analyze` then stops in the middle of the loop, with
  `totalLines` and `totalMatched` already written to the fields and `totalValid` counting the records
  before that line. The model files such a record like any other key, in a plain map.
- App.ComputeTimeBuckets: the final `.filter(isFinite)` is left out. A bucket holds at least one value
  and its percentile is in (0, 100], so its value is always a finite number in this model.
- App.Analyze: the counters are accumulated in locals and stored with the other results when the pass
  ends. The source increments the fields directly. Nothing reads them in between.
- App.Analyze: the source stores `groups` and then sorts its arrays in place in the `forEach`. The model
  stores the sorted groups directly, so the intermediate state and the aliasing of those arrays are not
  modelled.
- App.Analyze: its contract gives the report under the settings at the time of the call. That the
  settings and the file stay unchanged follows from its `modifies` clause.
