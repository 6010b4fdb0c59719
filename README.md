# Task tracker: list transitions and completion analytics

This project models the logic of a small personal task tracker. Users add tasks,
mark them done or not done, and delete them. An analytics page turns the task
list into statistics. The model covers two parts:

- **The task list** (`TodoApp`, `todo_app.dfy`).
  - The `Todo` record.
  - The three transitions the list component applies to its state: add, toggle
    and delete.
  - The completed and total counts it displays.
  - The component replaces its whole list on every change, so each transition
    is a function from the old list to the new one.
- **The analytics page** (`Analytics`, `analytics.dfy`, and `Insights`,
  `insights.dfy`).
  - The daily series over a trailing window of 7, 14, 30 or 90 UTC calendar
    days.
  - The weekday series over all records.
  - The summary figures and the completed/pending split.
  - The three-band message about the overall rate.
  - The "most productive" and "least productive" weekday.

The page builds the two series imperatively. It zero-fills a `Map`, then walks
the records and bumps a bucket for each one. `DailyCompletion` and
`WeekdayCompletion` do the same with loops over a Dafny `map`. They are proved
equal to pure counting specifications, `DailySeries` and `WeekdaySeries`, and
the series properties are proved as lemmas about those specifications.

Time is abstract. A creation instant is a pair:

- the UTC day number, which the date part of `toISOString` names;
- the local day of the week, which `getDay` returns.

The two are independent inputs, as on the page, which mixes them. "Today" is a
parameter. An ISO `YYYY-MM-DD` key is modelled by its day number, because the
two sort in the same order for four-digit years.

`Math.round(completed / total * 100)` is modelled as the exact integer
round-half-up, `(200 * completed + total) / (2 * total)`. It is `0` when
`total == 0`.

The weekday picks are modelled exactly as the page computes them:

- the buckets are filtered to those with records;
- the filtered list is reduced from the Sunday bucket `weekdayData[0]`, whatever
  Sunday holds;
- the comparisons are strict, so on equal rates the later bucket wins;
- with no bucket holding records the pick is Sunday.

Two of these behaviours defeat the filter's evident purpose, and they are
recorded under Findings with a corrected pick:

- the Sunday seed can win without having any records;
- an empty week is ranked instead of reported as having no ranking.

The tie rule is a different case. A first-wins rule, where the earlier weekday
keeps a tie, would be an equally reasonable choice, but the page's strict
comparisons give ties to the later weekday. The two rules show different days
only when several weekdays share the best or worst rate: with an empty Sunday
and one completed record on each of Monday and Tuesday, the page names Tuesday
the most productive day, where a first-wins rule would name Monday
(`TiedWeekdaysNameLater` proves this case and `MostProductiveIsLastBest` the
general rule). The model follows the page's later-wins rule and does not treat
it as a defect. The corrected picks keep the same rule.

## Model

| member | source | states |
|---|---|---|
| TodoApp.Trim | src/components/TodoApp.tsx:20 | `text.trim()`: the result is a slice of the input with only white space before and after it, and it neither starts nor ends with white space |
| TodoApp.TrimEmptyIffBlank | src/components/AddTodo.tsx:16 | trimming gives the empty string exactly when the input is all white space (the form's guard) |
| TodoApp.TrimIdempotent | src/components/TodoApp.tsx:20 | trimming an already trimmed text changes nothing |
| TodoApp.CompletedCount | src/components/TodoApp.tsx:39-40 | `completedCount` never exceeds `totalCount`, the list length |
| TodoApp.AddTodo | src/components/TodoApp.tsx:17-25 | the new list is one longer; its head has the given id, the trimmed text, is not completed and has the given creation time; its tail is exactly the old list |
| TodoApp.AddTodoCounts | src/components/TodoApp.tsx:17-25 | adding raises `totalCount` by one and leaves `completedCount` unchanged |
| TodoApp.AddedTextNonEmpty | src/components/AddTodo.tsx:14-20 | a task submitted through the form's non-blank guard gets non-empty text |
| TodoApp.ToggleTodo | src/components/TodoApp.tsx:27-33 | the length and order are kept; every record whose id matches has `completed` negated; all other records are unchanged; id, text and creation time never change |
| TodoApp.ToggleInvolution | src/components/TodoApp.tsx:27-33 | toggling the same id twice gives back the original list |
| TodoApp.ToggleCounts | src/components/TodoApp.tsx:27-33 | toggling keeps `totalCount`; `completedCount` gains each pending match and loses each completed match |
| TodoApp.DeleteTodo | src/components/TodoApp.tsx:35-37 | no record of the result has the id, and the length drops by the number of records that had it |
| TodoApp.DeleteKeepsOthers | src/components/TodoApp.tsx:35-37 | every record with another id keeps its number of occurrences, and the result is a subsequence of the old list (order kept) |
| TodoApp.DeleteAbsent | src/components/TodoApp.tsx:35-37 | deleting an id no record has leaves the list unchanged |
| TodoApp.DeleteIdempotent | src/components/TodoApp.tsx:35-37 | deleting the same id twice equals deleting it once |
| TodoApp.DeleteCompletedCount | src/components/TodoApp.tsx:35-37 | deleting lowers `completedCount` by exactly the number of completed records that had the id |
| Analytics.TimeRange.Days | src/pages/Analytics.tsx:43 | each option gives its own window: the last 7, 14, 30 or 90 days |
| Analytics.CompletionRate | src/pages/Analytics.tsx:84 | the rate is 0 for an empty bucket; otherwise it is 100 * completed / total rounded half-up (stated as an integer bracket); it is at most 100 when completed <= total |
| Analytics.FullRate | src/pages/Analytics.tsx:84 | a bucket whose records are all completed is rated exactly 100 |
| Analytics.CompletionRateExamples | src/pages/Analytics.tsx:84 | 1/2 gives 50, 1/3 gives 33, 2/3 gives 67, 0/5 gives 0, 5/5 gives 100, 0/0 gives 0 |
| Analytics.DailySeriesDates | src/pages/Analytics.tsx:59-64 | the daily series has exactly N points, from `today - (N-1)` to `today`, with consecutive and strictly ascending dates, so no date appears twice |
| Analytics.DailyBucketBounds | src/pages/Analytics.tsx:67-85 | in every daily point, completed <= total and the rate is in [0, 100]; the rate is 0 for a day without records |
| Analytics.DailyTotalsCountWindow | src/pages/Analytics.tsx:67-77 | the daily totals add up to the number of records created inside the window, which is at most the number of records: records outside the window are dropped and none is counted twice |
| Analytics.SortedKeys | src/pages/Analytics.tsx:80-81 | the date keys come out strictly ascending, each key of the map exactly once |
| Analytics.ToDailySeries | src/pages/Analytics.tsx:79-84 | the read-out `Array.from(...).sort(...).map(...)`: its own contract gives only the length, one point per key; `Analytics.WindowMapToSeries` states what it returns |
| Analytics.WindowMapToSeries | src/pages/Analytics.tsx:79-84 | reading out a map that holds exactly the window's days, each with its record counts, gives exactly the daily series specification |
| Analytics.DailyCompletion | src/pages/Analytics.tsx:53-86 | the zero-fill loop, the counting loop and the sorted read-out produce exactly the daily series specification for the selected window |
| Analytics.WeekdayBuckets | src/pages/Analytics.tsx:89-114 | the weekday series has exactly 7 points, named Sunday to Saturday in index order; each has completed <= total and a rate in [0, 100] that is 0 without records |
| Analytics.AllCompletedWeekdays | src/pages/Analytics.tsx:98-113 | when every record is completed, every weekday with records is rated 100 |
| Analytics.WeekdaySums | src/pages/Analytics.tsx:98-106 | the weekday totals add up to the number of records and the weekday completed counts to the number of completed records (no windowing) |
| Analytics.ToWeekdaySeries | src/pages/Analytics.tsx:109-113 | the read-out `Array.from(...).map(...)` in insertion order: its own contract gives seven points with each entry's name and total; `Analytics.WeekdayMapToSeries` states what it returns |
| Analytics.WeekdayMapToSeries | src/pages/Analytics.tsx:109-113 | reading out a map that holds the seven weekdays, each with its record counts, gives exactly the weekday series specification |
| Analytics.WeekdayCompletion | src/pages/Analytics.tsx:89-114 | the zero-fill loop, the counting loop and the read-out in insertion order produce exactly the weekday series specification |
| Analytics.Summarize | src/pages/Analytics.tsx:117-119 | `totalTasks` is the number of records and `completedTasks` the number of completed ones; the overall rate is 0 when there are none, otherwise it is the half-up rounded percentage and at most 100 |
| Analytics.StatusData | src/pages/Analytics.tsx:122-125 | two slices, "Completed" then "Pending"; the first counts the completed records and the two add up to `totalTasks` |
| Analytics.WeekdayAgreesWithSummary | src/pages/Analytics.tsx:98-118 | the weekday view and the summary count the same records |
| Insights.Rating | src/pages/Analytics.tsx:318-330 | exactly one band: excellent iff rate > 70, progressing iff 40 < rate <= 70, needs attention iff rate <= 40 |
| Insights.RatingMonotone | src/pages/Analytics.tsx:318-330 | a higher rate never earns a worse band |
| Insights.Active | src/pages/Analytics.tsx:337 | `filter(day => day.total > 0)` keeps exactly the buckets with records |
| Insights.ActiveKeepsOrder | src/pages/Analytics.tsx:337 | the filter's result is a subsequence of the weekday series, so it keeps weekday order, and every bucket with records occurs in it as often as in the series: it is exactly the order-preserving filter |
| Insights.ActiveFirst | src/pages/Analytics.tsx:337 | when Sunday has records, it is the first bucket the filter keeps |
| Insights.MostReduce | src/pages/Analytics.tsx:338-340 | the `>` reduce from a seed; no contract of its own: `Insights.MostReduceBounds` and `Insights.MostReduceIsLastMaximum` fix its result |
| Insights.LeastReduce | src/pages/Analytics.tsx:348-350 | the `<` reduce from a seed; no contract of its own: `Insights.LeastReduceBounds` and `Insights.LeastReduceIsLastMinimum` fix its result |
| Insights.MostProductive | src/pages/Analytics.tsx:336-341 | the page's most productive day, the `>` reduce over the buckets with records seeded with Sunday; no contract of its own: `Insights.MostProductiveIsLastBest` and `Insights.MostProductiveBounds` fix its result |
| Insights.LeastProductive | src/pages/Analytics.tsx:346-351 | the page's least productive day, the `<` reduce over the buckets with records seeded with Sunday; no contract of its own: `Insights.LeastProductiveIsLastWorst` and `Insights.LeastProductiveBounds` fix its result |
| Insights.MostReduceBounds | src/pages/Analytics.tsx:338-340 | the `>` fold returns the seed or a list element, and its rate is at least the seed's and at least every element's |
| Insights.LeastReduceBounds | src/pages/Analytics.tsx:348-350 | the `<` fold returns the seed or a list element, and its rate is at most the seed's and at most every element's |
| Insights.MostReduceIsLastMaximum | src/pages/Analytics.tsx:338-340 | the `>` fold returns the last of the maxima of seed-then-list: every later element has a strictly lower rate |
| Insights.LeastReduceIsLastMinimum | src/pages/Analytics.tsx:348-350 | the `<` fold returns the last of the minima of seed-then-list: every later element has a strictly higher rate |
| Insights.MostProductiveIsLastBest | src/pages/Analytics.tsx:336-341 | the most productive day is the last bucket of highest rate among Sunday followed by the buckets with records, so ties go to the later bucket (later in the week, since the filter keeps weekday order) |
| Insights.LeastProductiveIsLastWorst | src/pages/Analytics.tsx:346-351 | the least productive day is the last bucket of lowest rate among Sunday followed by the buckets with records, so ties go to the later bucket (later in the week, since the filter keeps weekday order) |
| Insights.MostProductiveBounds | src/pages/Analytics.tsx:336-341 | the most productive day is Sunday or a bucket with records, and its rate is >= Sunday's and >= that of every bucket with records |
| Insights.LeastProductiveBounds | src/pages/Analytics.tsx:346-351 | the least productive day is Sunday or a bucket with records, and its rate is <= Sunday's and <= that of every bucket with records |
| Insights.TiedWeekdaysNameLater | src/pages/Analytics.tsx:336-351 | with an empty Sunday and Monday and Tuesday each at one completed record (rate 100), the most productive day is Tuesday, not Monday, and the least productive is the empty Sunday |
| Insights.IdleWeekPicksSeed | src/pages/Analytics.tsx:336-351 | with no bucket holding records, both picks are the seed bucket, with no "absent" result |
| Insights.LeastProductiveWithEmptySunday | src/pages/Analytics.tsx:346-351 | with an empty Sunday the least productive day has rate 0, and it is Sunday itself unless some bucket with records also has rate 0 |
| Insights.EmptySundayNamedLeastProductive | src/pages/Analytics.tsx:346-351 | one completed Monday record: Monday has a record and 100%, yet the page names the empty Sunday least productive |
| Insights.LeastProductiveActive | src/pages/Analytics.tsx:346-351 | corrected pick: absent exactly when no bucket has records; otherwise a bucket with records whose rate is <= that of every bucket with records |
| Insights.MostProductiveActive | src/pages/Analytics.tsx:336-341 | corrected pick: absent exactly when no bucket has records; otherwise a bucket with records whose rate is >= that of every bucket with records |
| Insights.LeastProductiveAgreesWhenSundayActive | src/pages/Analytics.tsx:346-351 | once Sunday has records, the page's pick and the corrected pick agree |
| Insights.NoRecordsDaily | src/pages/Analytics.tsx:59-64 | with no records every daily point of the window has total 0 and rate 0 |
| Insights.NoRecordsSummary | src/pages/Analytics.tsx:117-125 | with no records the split is 0 and 0, the overall rate is 0, and the message is the "needs attention" one |
| Insights.NoRecordsWeekday | src/pages/Analytics.tsx:336-351 | with no records every weekday bucket is empty, and both picks are named "Sunday" |

## Left out

- `generateMockData` (src/pages/Analytics.tsx:13-36) is driven by `Math.random` and `Date` mutation. The record list is an arbitrary input instead.
- React state and effects (`useState`, `useEffect`, `useMemo`, `setTodos`). State is a `seq<Todo>` and each recomputation is a function call.
- Chart rendering, tooltip and label formatters, and `toLocaleDateString`: these are presentation only.
- The message texts of the rating band: only the choice of band is modelled.
- The `weekdayData.length > 0` guard (src/pages/Analytics.tsx:332) is always true, since `WeekdayBuckets` proves seven points.
- Real `Date` and time-zone conversion. `toISOString` and `getDay` are abstracted into a given UTC day number and a given local weekday. The ISO date string key is its day number.
- Analytics.CompletionRate: computes the exact half-up rounding of 100 * completed / total. The page rounds a floating-point product, which can land just below a .5 boundary and round down.
- `Date.now()` id generation (src/components/TodoApp.tsx:19). The id is a parameter, and ids are not assumed unique.
- TodoApp.Trim: removes the ASCII white-space and line-terminator characters, U+00A0, U+FEFF, U+2028 and U+2029. It does not remove the other space separators of Unicode category Zs that `String.prototype.trim` also removes.
- The bucket objects that the page mutates in place (`dayData.total += 1`) are map values replaced by an updated copy. The page also writes them back with `set`, so no aliasing is lost.
- The weekday map's insertion order is modelled as key order 0 to 6. The page inserts the keys in that order and later `set`s keep it.
- src/components/AddTodo.tsx is form wiring. Its blank-input guard appears only as the precondition of `TodoApp.AddedTextNonEmpty`.
- src/components/TodoItem.tsx is rendering only. src/pages/About.tsx, Contact.tsx and Index.tsx are static pages.

## Findings

| source | as written | input that shows it | evidently intended | confidence | as-written member | corrected member |
|---|---|---|---|---|---|---|
| src/pages/Analytics.tsx:346-351 | the least-productive fold is seeded with `weekdayData[0]` (Sunday), which bypasses the `total > 0` filter | a single completed record created on a Monday: Monday has 1 record at 100%, Sunday has none, and the page names Sunday (rate 0, no records) the least productive day | rank only weekdays that have records | medium, not executed | Insights.EmptySundayNamedLeastProductive | Insights.LeastProductiveActive |
| src/pages/Analytics.tsx:336-341 | with no records the filter is empty and the fold returns its seed, so "Sunday" is shown as the most productive day | an empty task list | report that there is no ranking | medium, not executed | Insights.NoRecordsWeekday | Insights.MostProductiveActive |
