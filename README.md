# Cleaning of one participant's study logs, in Dafny

This project models `clean_single_df` from `cleaning.py` in Dafny. The function
takes one participant's answer log and event log from a usability study of
proof-comprehension questions. It returns a per-answer table with these
columns added:

- the count of each UI event code in the answer's time window, with rapid
  repeated hovers left out;
- a 0/1 score and the expected answer from the scoring key;
- the time since the previous answer.

It also computes values for the whole participant: the demographic answers,
the pretest ratio and two usability (SUS) scores. At the end it drops the
SUS, background, pretest and tutorial rows.

Modules:

- `Records` (records.dfy): the answer, event and key rows, `Option`/`Result`,
  and the errors that stop the cleaning.
- `Tally` (tally.dfy): `tally_events` and the `next_time` lookahead.
  - Each answer owns the window `[t_i, t_{i+1})`, and the last window has no upper end.
  - The 10 ms hover debounce is a boolean mask over each window.
  - The five codes `n c h m p` are counted, zero-filled.
  - `TallyEvents` is the loop that fills the dictionary keyed by answer time.
- `Scoring` (scoring.dfy): `load_answer_key` and the scoring loop.
  - The key lookup has two tiers. The inserted questions `qID-11..13` are
    looked up by id alone; every other question by page and id. The first
    matching key row wins.
  - The loop also keeps the running pretest tally (`pretest`, `p_answer`).
  - This module also reads the background answers, where a missing track
    becomes `"N/A"`.
- `Sus` (sus.dfy): `sus_score`, `add_scores` and `calculate_sus`, as written.
  It also holds the conventional SUS score, for the findings below.
- `Cleaning` (cleaning.dfy): the `delta` column, the five final `drop` calls,
  and `CleanSingle`, which composes all of the above.

Choices made in the model:

- Times are whole milliseconds, so the 0.01 s debounce threshold is `<= 10`.
- Counts are maps over the five code strings.
- The scoring key is a sequence of rows, so "first match" means the lowest index.

In the following places the code does something other than a reader might
expect. The model follows the code:

- The hover debounce compares each event with the previous event of the same
  window (`diff()` on the filtered rows), not with the previous event of the
  whole stream. So the first event of a window is never dropped.
- A hover is also compared with the previous raw event, even when that event
  was itself dropped (`Tally.DebounceIsOnePass`).
- The code has none of these: a bonus score of 3, a counter of distinct pages,
  the removal of rows before the background page, a summary upsert.
- The SUS score is `2.5 * odd + even`, not 2.5 times the sum (see Findings).

## Model

| member | source | states |
|---|---|---|
| `Tally.NextTimes` | cleaning.py:88 | the `next_time` column, built as the time column shifted up by one, is the next answer's time at every row and none (unbounded) at the last |
| `Tally.Window` | cleaning.py:37 | the selected events are exactly the log events with `answer_time <= time < next_time` (none = no upper bound), and no more than the log |
| `Tally.WindowAppend` | cleaning.py:37 | selecting a window distributes over concatenation, so the selected events keep their log order and multiplicity |
| `Tally.Asof` | cleaning.py:24 | the backward as-of join attaches a time to the last answer at or before it, and to none when every answer is later |
| `Tally.WindowIsAsof` | cleaning.py:24-37 | with strictly increasing answer times, time `t` lies in answer `i`'s window iff the as-of join attaches `t` to answer `i` |
| `Tally.WindowsPartition` | cleaning.py:33-37 | the windows are pairwise disjoint and together cover exactly the times at or after the first answer; earlier events fall in no window |
| `Tally.Debounce` | cleaning.py:40-41 | the debounced window keeps only rows of the window, and is shorter than it by exactly the number of masked hovers |
| `Tally.DebounceIsOnePass` | cleaning.py:40-41 | the mask selection equals a one-pass filter that drops a hover at most 10 ms after the previous raw event of the window, whether or not that event was kept |
| `Tally.DebounceMeasuresFromRawEvent` | cleaning.py:40-41 | hovers at 0, 5, 12 ms keep only the first, because the hover at 12 ms is measured from the dropped one at 5 ms |
| `Tally.DebounceKeepsLateHover` | cleaning.py:40-41 | hovers at 0, 5, 20 ms keep the first and the last |
| `Tally.DebounceKeepsFirst` | cleaning.py:40-41 | the first event of a non-empty window is always kept |
| `Tally.DebounceCounts` | cleaning.py:40-44 | debouncing leaves the count of every code other than `h` unchanged and lowers the `h` count by exactly the number of masked hovers |
| `Tally.ZeroFilled` | cleaning.py:47 | the counts dictionary has exactly the keys `n, c, h, m, p` |
| `Tally.WindowCounts` | cleaning.py:37-47 | one answer's counts have exactly the five codes; each code but `h` counts the window's events, and the `h` count plus the masked hovers is the window's hover count |
| `Tally.CountsOfWindow` | cleaning.py:29-47 | each window's counts have exactly the five keys; a code absent from the window counts 0; the five counts plus the events with other codes make up the debounced window, which is no larger than the window |
| `Tally.Conservation` | cleaning.py:32-50 | summed over all answers, each code's count equals the number of its events at or after the first answer, less the debounced hovers for `h` |
| `Tally.TallyEvents` | cleaning.py:22-51 | the loop fills a dictionary keyed by exactly the answer times, each holding its own window's debounced, zero-filled counts |
| `Scoring.LoadAnswerKey` | cleaning.py:3-7 | the loaded key holds exactly the raw key rows that are not on the "Background Questions" page |
| `Scoring.LoadAnswerKeyAppend` | cleaning.py:3-7 | loading distributes over concatenation, so the kept key rows keep their order and multiplicity |
| `Scoring.KeyPages` | cleaning.py:125 | the page of every key row is a key page |
| `Scoring.KeyPagesFromRows` | cleaning.py:125 | every key page is the page of some key row |
| `Scoring.FirstMatch` | cleaning.py:131-135 | returns the lowest key index that matches (by question alone for `qID-11..13`, by question and page otherwise), or none when no row matches |
| `Scoring.Lookup` | cleaning.py:125-140 | an expected answer exists iff the page is among the key's pages and some key row matches; it is the answer of the first matching row |
| `Scoring.InsertedIgnoresPage` | cleaning.py:131-132 | an inserted question gets the same expected answer on every page that appears in the key |
| `Scoring.OtherQuestionsUseOwnPage` | cleaning.py:133-135 | any other question takes its expected answer from a key row of its own page and question |
| `Scoring.Grade` | cleaning.py:125-150 | the score is 0 or 1; it is 1 iff the recorded key equals the participant's answer; with no key the score is 0 |
| `Scoring.ScoreRows` | cleaning.py:112-150 | one score and one key per row, each the row's grade; `pretest` and `p_answer` are the correct and the matched pretest-page rows, and `pretest <= p_answer` |
| `Scoring.PretestBounded` | cleaning.py:146-148 | the correct pretest rows never exceed the matched ones |
| `Scoring.PretestMatchedZero` | cleaning.py:146-148 | `p_answer` is 0 iff no row on a page starting with `P` or `T` was matched in the key |
| `Scoring.PretestRatio` | cleaning.py:164 | the ratio fails (division by zero) iff `p_answer` is 0; otherwise it times `p_answer` gives `pretest`, and it lies in 0..1 when `pretest <= p_answer` |
| `Scoring.BackgroundAnswer` | cleaning.py:116-119 | the first background-page answer to a question, or none iff there is no such row |
| `Scoring.ReadDemographics` | cleaning.py:116-120 | succeeds iff background questions 0, 1 and 2 are answered, else fails on the first one missing; age, year taken and grade are the first answers to questions 0, 1 and 2; the track is the first answer to question 3, or "N/A" when there is none |
| `Sus.ParseInt` | cleaning.py:58-60 | an integer exactly for digit strings with an optional sign; a single digit reads as its value (multi-digit and signed values are fixed by `ParseShowNat` and `ParseSigned`) |
| `Sus.ParseShowNat` | cleaning.py:58-60 | parsing reads back the decimal form of every natural number |
| `Sus.ParseSigned` | cleaning.py:58-60 | a `+` or `-` in front of a number's decimal form parses to that number or its negation |
| `Sus.PageItems` | cleaning.py:62-65 | the selected items are exactly the rows of the given page, in table order, each carrying its index in the whole table and its answer |
| `Sus.AddScores` | cleaning.py:54-61 | the loop's result is the alternating sums of the page rows by table index, or the error of the first answer that is not an integer |
| `Sus.SusScore` | cleaning.py:53-71 | the static score, then the interactive score, each `2.5 * odd + even`; the first non-integer answer fails the whole |
| `Sus.CalculateSus` | cleaning.py:69-70 | the score equals 2.5 times the sum of both sums only when `even` is 0, and is non-negative for non-negative sums |
| `Sus.SumsBounded` | cleaning.py:56-61 | with answers in 1..5 the sums exist, `even` lies in 0..4 per odd-indexed row and `odd` in 0..4 per even-indexed row |
| `Sus.SusScoreRange` | cleaning.py:69-70 | with answers in 1..5, twice the score is `5*odd + 2*even`, and the score lies between 0 and 10 per even-indexed plus 4 per odd-indexed row |
| `Sus.IdealScoresSeventyAsWritten` | cleaning.py:69-71 | the answers 5,1,5,1,... on rows 0..9 give sums (20, 20) and a score of 70 |
| `Sus.IdealScoresZeroFromOddRow` | cleaning.py:56-60 | the same answers on rows 1..10 give sums (0, 0) and a score of 0 |
| `Sus.StandardSusRange` | cleaning.py:53-71 | the conventional score of ten answers in 1..5 lies in 0..100 |
| `Sus.StandardIdealIsHundred` | cleaning.py:53-71 | the conventional score of the answers 5,1,5,1,... is 100 |
| `Cleaning.Deltas` | cleaning.py:157 | one delta per row, and none is negative when the times are sorted |
| `Cleaning.DeltasRebuildTimes` | cleaning.py:157 | the first time plus the deltas up to row `i` gives row `i`'s time back, so `delta[0] = 0` and `delta[i] = time[i] - time[i-1]` |
| `Cleaning.Without` | cleaning.py:179-183 | after a drop, the rows are exactly the earlier rows whose page is not dropped |
| `Cleaning.WithoutAppend` | cleaning.py:179-183 | dropping distributes over concatenation, so the kept rows keep their relative order |
| `Cleaning.WithoutTwice` | cleaning.py:179-183 | two successive drops are one drop of the union of their pages |
| `Cleaning.FiveDrops` | cleaning.py:179-183 | the five `drop` calls together remove exactly the SUS, background, `P1`..`P7` and tutorial pages |
| `Cleaning.CountsColumn` | cleaning.py:94-97 | the joined counts column has one entry per answer |
| `Cleaning.AssembleIsJoined` | cleaning.py:94-157 | the table assembled from the tally dictionary, the score and key lists and the deltas is `Joined`, whose row `i` holds answer `i`, its window counts, its grade and its delta |
| `Cleaning.JoinedRows` | cleaning.py:94-157 | every row of the table before the drops holds one of the answers, the five count keys and a 0/1 score that is 1 iff the key equals the answer |
| `Cleaning.CleanSingle` | cleaning.py:73-185 | the method's result is `CleanSpec`: the kept rows of `Joined`, the demographics, the pretest ratio and the SUS scores, or the first error among them |
| `Cleaning.CleanFails` | cleaning.py:116-170 | cleaning fails exactly when background question 0, 1 or 2 is unanswered, when no pretest row matched, or when a SUS answer is not an integer |
| `Cleaning.CleanedRows` | cleaning.py:112-183 | every kept row holds one of the answers, on a page that is not dropped, with the five count keys and a 0/1 score that is 1 iff the key equals the answer; the pretest ratio lies in 0..1 |

## Left out

- File input and output are not modelled: `read_csv`, `to_csv`, `save_df`, the `print` calls and the `__main__` block. The logs and the key are parameters.
- `r_df` is not modelled: it is file-level glue, and it processes `participants[i-1]` at cleaning.py:192. So participant 0 is processed twice and the last participant never.
- `sort_values` is not modelled. The answers are taken already sorted, and the events in their sorted order; no `requires` states the events' order, so for an unsorted event log the model's debounce (which compares neighbours in log order) can differ from the code's. The order of events with equal times is part of the input.
- Tally.TallyEvents: requires strictly increasing answer times. With equal times the code's dictionary keeps the counts of the later answer, and that overwrite is not modelled.
- Cleaning.CleanSingle: requires strictly increasing answer times, for the same reason. The pandas duplicate-index join at cleaning.py:94-97 is not modelled.
- Datetime conversion is not modelled. Times are integer milliseconds, and `delta` is in milliseconds rather than float seconds. `pd.Timestamp.max` is read as "no upper bound".
- The merged table of `merge_asof` is not built. Only the index it attaches to each event (`Tally.Asof`) is modelled, because its rows, times and codes are the event log unchanged.
- The broadcast columns (age, year taken, grade, track, pretest, the SUS scores) appear once in `Cleaned`, not copied onto each row.
- The participant id is not modelled. It is the parameter of `clean_single_df` (cleaning.py:73), used only to name the two input files (cleaning.py:76, 10) and to fill the `participant` column (cleaning.py:175), so `Cleaned` has no participant field.
- The `merged_df` frame (cleaning.py:85), which concatenates and sorts the answers and events, is not modelled: nothing reads it, and `tally_events` builds its own merged frame at cleaning.py:24.
- The replacement of "static"/"interactive" in `condition` (cleaning.py:167) is not modelled. The version string is kept as given.
- Sus.ParseInt: Python's `int()` also accepts surrounding whitespace, `_` between digits and non-ASCII Unicode digits, and pandas may hand over a float. These are not modelled.
- Scoring.PretestRatio: the ratio is an exact rational. The code divides two integers into a binary float, so `(1 / 49) * 49 == 1` is false there while the model proves `ratio * p_answer == pretest`; float rounding is not modelled.
- All columns are strings. Pandas type coercion, such as a question id read as a number, is not modelled.

## Findings

| source | as written | input that shows it | evidently intended | confidence | as-written member | corrected member |
|---|---|---|---|---|---|---|
| cleaning.py:69-70 | `2.5 * odd + even`: the 2.5 factor scales only `odd` | ten SUS answers 5,1,5,1,... on rows 0..9: sums (20, 20), score 70 | 2.5 × (odd + even), so this respondent scores 100 and every score lies in 0..100 | high; not executed | `Sus.IdealScoresSeventyAsWritten` | `Sus.StandardSusRange` |
| cleaning.py:56-60 | polarity from the row's index in the whole table | the same answers on rows 1..10: sums (0, 0), score 0 | polarity from the item's position on the SUS page, which gives 100 whatever the page's first row | medium (right only when the page starts on an even row); not executed | `Sus.IdealScoresZeroFromOddRow` | `Sus.StandardIdealIsHundred` |

`Sus.StandardSus` is the corrected score. `CleanSingle` keeps the as-written
values in `staticSus` and `interSus`, because those are the values the code
writes. Nothing else in the model reads these scores.
