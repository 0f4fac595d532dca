# Interval engine of the Panchang day planner

The two scripts `app.py` and `app_adv.py` list a day's auspicious and
inauspicious time windows (Rahu, Yamaganda, Gulika, Abhijit Muhurat, ...).
This project models the interval engine they share and proves what it
computes. The model covers:

- the `Interval` value and its ordering;
- `build_intervals`, which turns window strings such as
  `12:35 PM – 01:28 PM (Tomorrow)` into sorted interval lists per category;
- `sort_and_normalize`, which sorts, drops and clips intervals to the day
  `[given, next_day)` and merges those that overlap;
- `find_free_time`, which walks the normalized busy intervals of the day and
  returns the gaps between them;
- `merge_subtract_intervals` (only in `app_adv.py`), which merges the
  categories in which a meeting may be held, merges those in which it may
  not, and cuts the second set from the first;
- the duration and Next Day / Previous Day label that `main` computes for
  each listed interval.

Instants are whole seconds as `int`, and a day is `Day == 86400` seconds.
`next_day` is `given + Day`. Reading a clock token (`try_strptime`) is a
parameter `parse(token, date)`. Python's list sorts are functional
insertion sorts with sortedness, permutation and, for `sort(key=start)`,
stability proved. Each loop of the source is a `method` with a `while`
loop, proved equal to a function that states the loop's result; the
properties are lemmas about those functions. Points are read half-open: an
interval holds `t` when `start <= t < stop` (`Contains`), and a list
`Covered`s `t` when one of its intervals does.

Files and modules:

- `intervals.dfy` (`Intervals`): the `Interval` datatype, orders, sorts.
- `windows.dfy` (`Windows`): `strip`, `rfind`, `split`, window parsing,
  `build_intervals`.
- `normalize.dfy` (`Normalize`): `sort_and_normalize`.
- `categories.dfy` (`Categories`): gathering the lists of several
  categories into one list.
- `freetime.dfy` (`FreeTime`): `find_free_time`.
- `algebra.dfy` (`Algebra`): `merge_subtract_intervals` and its three
  helpers.
- `labels.dfy` (`Labels`): the per-interval label arithmetic of `main`.

Behaviour of the source that the model keeps:

- `sort_and_normalize` reads `clean_intervals[0]`, so it faults when every
  interval ends before `given`. `Normalize.SortAndNormalize` makes this its
  precondition.
- `find_free_time` tests `delta.seconds > 0`, the seconds component of a
  timedelta, not `cursor < start`. `FreeTime.Gaps` uses
  `(start - cursor) % Day > 0`. `FreeTime.GapsTest` proves that, for any
  busy intervals, this test is `cursor < start` on every state the walk
  reaches.
- `sort_and_normalize` drops only intervals that end before `given`.
  Intervals that start on or after `next_day` are kept unclipped.
  `Normalize.Normalized` states this through the points it covers from
  `next_day` on.
- Because of the sentinel `[next_day - 1s, next_day)`, the last free window
  ends at `next_day - 1s`. With no busy interval the result is
  `[given, next_day - 1s]`, not the whole day.

## Model

| member | source | states |
|---|---|---|
| Intervals.LessIsLexicographic | app_adv.py:51-57 | `__lt__` is lexicographic on (start, stop), `__eq__` is equality of both fields, and the two give a strict total order (irreflexive, transitive, trichotomous) |
| Intervals.SortLex | app_adv.py:179 | `list.sort()` on intervals returns a list of the same length that is sorted by `__lt__` and is a permutation of its input |
| Intervals.SortLexOfSorted | app_adv.py:196 | sorting a list that is already sorted leaves it unchanged |
| Intervals.SortByStart | app_adv.py:272 | `sort(key=start)` returns a permutation of its input sorted by start |
| Intervals.SortByStartStable | app_adv.py:272 | the sort by start is stable: for every start value, the entries with that start keep their input order |
| Windows.StripFacts | app_adv.py:164 | `strip()` returns a piece of the string that neither starts nor ends with white space, with only white space before and after it |
| Windows.RFindFacts | app_adv.py:162 | `rfind` is -1 exactly when the character is absent; otherwise it indexes that character and no later index holds it |
| Windows.SplitFacts | app_adv.py:165 | `split(sep)` gives one more piece than there are separators, and no piece holds a separator |
| Windows.JoinSplit | app_adv.py:165 | joining the pieces of `split` with the separator gives back the string |
| Windows.SplitJoin | app_adv.py:165 | splitting the join of pieces that hold no separator gives back the pieces |
| Windows.ParseWindowFacts | app_adv.py:161-177 | a window string yields an interval exactly when, without its annotation, it holds one en dash; the interval runs from the first token's instant to the second token's instant, moved one day on exactly when the second instant is earlier than the first, whatever the tokens are; when clock tokens read as instants of the date, the interval starts on that date and lasts from 0 to under a day |
| Windows.KeptMembers | app_adv.py:166-177 | the list of an important category holds exactly the intervals of the window strings that parse, with the skipped ones left out |
| Windows.CategoryIntervals | app_adv.py:156-180 | the per-category loop returns the sorted list of the parsed windows |
| Windows.CategorySpecFacts | app_adv.py:158-180 | an interval is in a category's list exactly when one of its window strings parses to it, and all are valid when clock tokens read as instants of the date |
| Windows.OtherIntervalFacts | app_adv.py:184-187 | an `other_timings` entry has a second token exactly when it holds an en dash; its interval is valid exactly when the stop token reads no earlier than the start token, because there is no midnight roll; when valid, with one en dash and no annotation, it equals the important-window parse |
| Windows.ImportantIntervals | app_adv.py:155-180 | the first pass writes exactly the important keys, each with its category's sorted list |
| Windows.OtherIntervals | app_adv.py:182-190 | the second pass gives every `other_timings` key the one-element list of its interval and leaves every other key as it was |
| Windows.BuildIntervals | app_adv.py:152-192 | the result holds the important and other keys; other keys hold their one interval, and important-only keys hold their sorted category list |
| Normalize.ClipOne | app_adv.py:202-205 | a kept interval is raised to start at `given` and cut at `next_day` only when it starts before it; the result is in the day's scope, unchanged when it starts at or after `next_day`, valid when the input is, and holds exactly the input's points from `given` on, cut at `next_day` when it starts before it |
| Normalize.ClipFacts | app_adv.py:199-206 | the first loop keeps an interval exactly when it ends no earlier than `given`: every such interval appears, clipped, and every entry is the clip of such an interval; the list is non-empty exactly when one exists; what it keeps is in the day's scope and valid when the input is |
| Normalize.ClipSorted | app_adv.py:199-206 | clipping a list sorted by start keeps it sorted by start |
| Normalize.ClipCovers | app_adv.py:199-206 | below `next_day`, the clipped list holds exactly the input's points from `given` on; from `next_day` on, exactly the points of the intervals that start at or after `next_day`, which are kept unclipped |
| Normalize.StrictMergeOrdered | app_adv.py:208-221 | the merge loop's output is sorted by start and no entry overlaps a later one |
| Normalize.StrictMergeCovers | app_adv.py:208-221 | the merge loop's output holds exactly the points of its input |
| Normalize.StrictMergeValid | app_adv.py:208-221 | merging valid intervals gives valid intervals |
| Normalize.StrictMergeInScope | app_adv.py:208-221 | merging intervals in the day's scope stays in the day's scope |
| Normalize.Normalized | app_adv.py:195-222 | the output is sorted by start, entries do not overlap, every entry starts at or after `given`, one that starts before `next_day` ends by it, valid inputs give valid outputs; below `next_day` it holds exactly the input's points from `given` on, and from `next_day` on exactly the points of the input intervals that start at or after `next_day` |
| Normalize.CleanFacts | app_adv.py:196-206 | `clean_intervals` is non-empty, sorted by start and in the day's scope |
| Normalize.TouchingStaySeparate | app_adv.py:211 | the strict test `y.start < x.stop` keeps touching intervals [8, 9) and [9, 10) as two entries |
| Normalize.StrictMergeDisjoint | app_adv.py:208-221 | the merge loop returns a list without overlaps unchanged, so entries that only touch (`stop == next start`) stay separate |
| Normalize.ClipInScope | app_adv.py:199-206 | the first loop returns a list that already lies in the day's scope unchanged |
| Normalize.ClipTiesOrdered | app_adv.py:195-206 | after `intervals.sort()`, the first loop never puts an entry that ends no later than it starts before an entry with the same start that ends earlier |
| Normalize.StrictMergeSortedLex | app_adv.py:208-221 | on such a list, sorted by start, the merge loop's output is sorted by `__lt__` and no entry is smaller than the first running interval |
| Normalize.NormalizedSortedLex | app_adv.py:195-222 | the normalized list is sorted by `__lt__`, for any input, valid intervals or not |
| Normalize.NormalizedFixed | app_adv.py:195-222 | a non-empty list in the day's scope, sorted by `__lt__` and without overlaps, is its own normalization |
| Normalize.NormalizedIdempotent | app_adv.py:195-222 | normalizing the normalized list gives it back: `sort_and_normalize` is idempotent |
| Normalize.ClipToDay | app_adv.py:199-206 | the first loop computes the clipped list |
| Normalize.MergeOverlapping | app_adv.py:208-221 | the second loop, with its running `x`, computes the strict merge |
| Normalize.SortAndNormalize | app_adv.py:195-222 | `sort_and_normalize` returns the normalized list: sorted by start, without overlaps, in the day's scope, with the input's points from `given` on below `next_day` and the points of the late intervals from `next_day` on |
| Categories.GatheredMembers | app_adv.py:238-239 | the gathered list holds exactly the intervals of the named categories |
| Categories.GatheredCovers | app_adv.py:321-327 | the gathered list holds a point exactly when one of the named categories does |
| Categories.Collect | app_adv.py:321-323 | the gathering loop concatenates the lists of the keys in order |
| FreeTime.GapsTest | app_adv.py:244-249 | for any busy intervals, valid or not, on every state the walk reaches, the next busy interval starts at or after the cursor and before the last second of the day, so `delta.seconds > 0` is `cursor < start`, and the walk goes on from its stop in such a state |
| FreeTime.GapsStep | app_adv.py:244-249 | the same step on a state the walk reaches with valid busy intervals (sorted by start, without overlaps): the next interval also ends no earlier than it starts, and the walk goes on from its stop in such a state |
| FreeTime.GapsCovers | app_adv.py:244-249 | on a state the walk reaches (valid busy intervals, sorted by start, without overlaps), the emitted windows hold exactly the points from the cursor to the end of the day that no remaining busy interval holds |
| FreeTime.GapsBounded | app_adv.py:244-249 | on a state the walk reaches (valid busy intervals, sorted by start, without overlaps), every emitted window is non-empty and lies between the cursor and `next_day - 1s` |
| FreeTime.GapsDisjoint | app_adv.py:244-249 | on a state the walk reaches (valid busy intervals, sorted by start, without overlaps), the emitted windows do not overlap one another |
| FreeTime.GapsInDay | app_adv.py:244-249 | on a list sorted by start, without overlaps, whose intervals end no earlier than `given` and which holds the last second of the day, valid intervals or not, every emitted window is non-empty and lies between `given` and `next_day - 1s` |
| FreeTime.DisjointSorted | app_adv.py:251 | non-empty windows that do not overlap are already in `__lt__` order |
| FreeTime.FreeTimeFacts | app_adv.py:225-252 | for valid busy intervals, the free windows are sorted, do not overlap, lie in [given, next_day - 1s], and hold exactly the points of [given, next_day - 1s) that no busy interval holds |
| FreeTime.FreeTimeInDay | app_adv.py:225-252 | for any busy intervals, valid or not, every free window is non-empty and lies in [given, next_day - 1s] |
| FreeTime.FreeTimeNoBusy | app_adv.py:236 | with no busy interval the result is the single window [given, next_day - 1s] |
| FreeTime.Walk | app_adv.py:244-249 | the cursor loop, with its `break`, emits the walk's windows |
| FreeTime.FindFreeTime | app_adv.py:225-252 | `find_free_time` returns the free windows of the gathered busy categories (Rahu, Yamaganda, Gulika, Dur Muhurat, Varjyam) |
| Algebra.LooseMergeOrdered | app_adv.py:274-280 | the merged runs are sorted by start, and each ends strictly before the next starts |
| Algebra.LooseMergeCovers | app_adv.py:274-280 | the merged runs hold exactly the points of the input |
| Algebra.MergedFacts | app_adv.py:269-281 | `merge_intervals` returns [] exactly for empty input; otherwise it is sorted by start with `out[i].stop < out[i+1].start`, and valid when the input is |
| Algebra.MergedCovers | app_adv.py:269-281 | `merge_intervals` holds the same points as its input |
| Algebra.TouchingMerge | app_adv.py:276 | the non-strict test `current.start <= last.stop` merges touching [8, 9) and [9, 10) into [8, 10) |
| Algebra.MergeIntervals | app_adv.py:269-281 | the loop that extends `merged[-1]` or appends computes the merged runs |
| Algebra.SubtractFilters | app_adv.py:283-301 | the result is the filtering comprehension over the candidate list `results` |
| Algebra.SubtractShape | app_adv.py:285-301 | with no overlap, the interval itself when non-empty; otherwise the non-empty ones of [a.start, r.start) and [r.stop, a.stop) |
| Algebra.SubtractInside | app_adv.py:283-301 | every piece is non-empty and inside the original |
| Algebra.SubtractOrdered | app_adv.py:291-296 | for a valid removal the pieces are in order and do not overlap |
| Algebra.SubtractPieces | app_adv.py:283-301 | at most two pieces; a covering removal leaves []; a removal strictly inside leaves [a.start, r.start] and [r.stop, a.stop] |
| Algebra.SubtractCovers | app_adv.py:283-301 | the pieces hold exactly the points of the interval that the removal does not hold, so no piece overlaps the removal |
| Algebra.SubtractEachCovers | app_adv.py:309-312 | cutting every piece by one removal keeps exactly their points outside the removal |
| Algebra.SubtractAllCovers | app_adv.py:307-314 | after the remaining removals, with the early `break`, exactly the points held by no removal are left |
| Algebra.SubtractManyCovers | app_adv.py:303-316 | `subtract_many_intervals` holds exactly the available points that no unavailable interval holds |
| Algebra.SubtractEachWithin | app_adv.py:309-312 | pieces stay within any bounds that hold the intervals they were cut from |
| Algebra.SubtractEachNonEmpty | app_adv.py:309-312 | no piece is empty |
| Algebra.SubtractEachOrdered | app_adv.py:309-312 | cutting a sorted list without overlaps by a valid removal keeps it sorted and without overlaps |
| Algebra.SubtractAllInside | app_adv.py:307-314 | what is left of an available interval lies inside it |
| Algebra.SubtractAllValid | app_adv.py:307-314 | what is left of valid intervals is valid |
| Algebra.SubtractAllOrdered | app_adv.py:307-314 | what is left of a sorted list without overlaps, after valid removals, is sorted and without overlaps |
| Algebra.SubtractManyOrdered | app_adv.py:303-316 | every output piece lies inside some available interval; for valid, sorted, non-overlapping available intervals and valid removals, the output is sorted and does not overlap |
| Algebra.SubtractFromEach | app_adv.py:309-311 | the innermost loop computes the pieces of every entry of `temp` |
| Algebra.SubtractFromOne | app_adv.py:307-314 | the middle loop, with its `break`, computes what is left of one available interval |
| Algebra.SubtractManyIntervals | app_adv.py:303-316 | the outer loop concatenates what is left of each available interval |
| Algebra.MergeSubtractCovers | app_adv.py:318-331 | a meeting slot holds exactly the points some available category holds and no unavailable category holds |
| Algebra.MergeSubtractOrdered | app_adv.py:318-331 | every slot lies inside one merged available interval; for valid inputs the slots are sorted and do not overlap |
| Algebra.MergeSubtractIntervals | app_adv.py:264-332 | `merge_subtract_intervals` returns the meeting slots of the merged available and unavailable categories, whose meaning the two lemmas above state |
| Labels.TotalSeconds | app.py:353-354 | `delta.days * 86400 + delta.seconds` is the whole difference, negative ones included |
| Labels.HoursMinutes | app.py:355-356 | `seconds // 3600` hours and `(seconds // 60) % 60` minutes are the duration rounded down to the minute, with minutes in [0, 60) |
| Labels.LabelFacts | app.py:352-373 | the label gives the duration to the minute, flags a span exactly for a duration of a day or more, and marks Next Day exactly when start >= date + 1 day, Previous Day exactly when start < date, and nothing otherwise |
| Labels.FreeTimeLabels | app.py:366-373 | for any busy intervals, valid or not, free windows are listed with no day mark, no span, and under 24 hours |
| Labels.WindowLabels | app.py:363-373 | important windows whose tokens read as instants of the date are listed with no day mark and never as spanning a day |

## Left out

- HTML scraping (`parse_data`), the HTTP session (`download_and_parse_data`), `get_data_helper`, `parse_date`, the command line, caching, CSV writing and icons. These are I/O around the engine.
- The internals of `try_strptime`: eight `strptime` formats and `pytz` localization are library calls. The function is the parameter `parse`. Its failure path returns `None`, which Python 2 then compares with datetimes; that path is not modelled.
- Time zones and daylight saving: `next_day` is `given + 86400` seconds.
- `strftime` formatting of titles and subtitles in `main`. Only the numbers and marks are modelled.
- In-place mutation and aliasing. `sort_and_normalize` rewrites the fields of its caller's `Interval` objects and sorts the caller's list. `merge_intervals` extends `merged[-1]` through a reference. The model works on values, so these side effects are not modelled. The entry points deep-copy their inputs, so their results do not depend on them.
- Dictionary iteration order in `build_intervals`. Each pass writes every key once, so the order does not change the result.
- Normalize.SortAndNormalize: requires that some interval ends no earlier than `given`, because the source indexes `clean_intervals[0]` and faults otherwise.
- Windows.OtherIntervals: requires every `other_timings` string to hold an en dash, because the source indexes the second token without a check.
- Windows.BuildIntervals: has the same requirement on `other_timings`.
- Windows.BuildIntervals: models the items of an `important_timings` list as strings only. For a `Nil` item, `parse_data` stores the placeholder `[]` in the list (app_adv.py:105), `build_intervals` does not wrap it, and `slist.rfind('(')` raises `AttributeError`, which aborts the whole day. The model has no such item.
- FreeTime.FreeTimeFacts: states its properties only for busy intervals that are valid (start <= stop). An `other_timings` window that crosses midnight is not. The bounds of each free window are stated for all busy intervals by `FreeTime.FreeTimeInDay`.
- Algebra.MergeSubtractOrdered: states order and non-overlap only when all gathered intervals are valid.
- Categories.Collect, FreeTime.FindFreeTime and Algebra.MergeSubtractIntervals: require every gathered key to be in the dictionary, because the source indexes `day[key]` and raises `KeyError` otherwise.
- Labels.WindowLabels: assumes clock tokens read as instants of the listed date. A token that carries its own date is not covered.
