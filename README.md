# TED talks exploratory analysis: the counting core

`Final.py` explores a table of TED talks. Most of the script is loading,
statistics and charts. Underneath those sit a few exact data transforms,
and this project models them and proves their properties:

- **Theme pipeline.** Each talk's comma-joined `tags` text is split into
  pieces. Each piece becomes a `(views, theme)` row. The characters `'`,
  `[`, `]` and space are deleted from every theme in four passes.
- **Theme counts.** Rows are counted per theme, most frequent first, and
  the ten most frequent are kept. The same is done for the talks with at
  least 4,000,000 views. The two top-10 lists are intersected.
- **Title shapes.** Titles are classified by their last character (`?`,
  `!`, anything else). Each class is counted over all talks and over the
  high-view talks. The "success rate" of each class is its high-view count
  over its full count.
- **Title length.** The words of each title are counted. The lengths go
  into a frequency table, and the frequencies are accumulated in table
  order.
- **Years.** The year is extracted from each `dd-mm-YYYY` film date. Talks
  are counted per year, listed in ascending year order.

Module layout, in dependency order:

- `Collections.dfy`: `Option`, `Min` and the order-keeping `Filter` (a
  boolean-mask row selection).
- `Sorting.dfy`: a comparator sort. It promises ordered output and a
  permutation, but no order among equal rows: pandas' default sort is not
  stable.
- `Text.dfy`: the Python string operations the script uses:
  character removal, `split(sep)`, the no-argument `split()` with
  Python's whitespace set, `endswith` and string `<=`. The script never
  joins strings. `Text.Join` is there only to state the split round trips.
- `Frequency.dfy`: `value_counts` tables. A table is a sequence of
  `(key, count)` pairs. The file also has the top-k selection by count and
  an imperative running-sum method.
- `Talks.dfy`: the talk record and the `views >= 4000000` subset.
- `Themes.dfy`, `TitleShapes.dfy`, `TitleLength.dfy`, `Years.dfy`: the four
  analyses.

Two of the script's in-place column steps are modelled as methods:
- **The theme column** is rewritten four times (lines 204-207).
  `Themes.CleanThemeColumn` models it as a method over an `array<string>`.
  The method is proved equal, element by element, to the one-pass
  specification `Themes.CleanTheme`.
- **Cumulative frequencies** are a running sum (lines 365 and 379).
  `Frequency.CumulativeSums` models it as a loop proved against `Total`.

Everything else is expressions over sequences, and is modelled as
functions and lemmas.

The unordered tables of pandas are modelled as sequences. `ValueCounts`
orders its rows by descending count, and the order among equal counts is
whatever the model's sort produces. Every property stated below holds for
any tie order. A `value_counts` table is tied to the column it counts by
`Frequency.IsTableOf`:
- keys are distinct;
- the keys are exactly the distinct values of the column;
- each count is that value's number of occurrences.

Lines 204-207 delete every occurrence of the four characters, not only
those around a tag. So a two-word tag such as `global issues` loses its
inner space (`Themes.InnerSpaceRemoved`).

## Model

| member | source | states |
|---|---|---|
| Collections.Filter | Final.py:247 | the selection holds exactly the input's elements that satisfy the mask, and is no longer than the input |
| Collections.FilterAppend | Final.py:247 | selection keeps relative order: it distributes over concatenation |
| Collections.FilterMultiplicity | Final.py:247 | a selected element occurs as often as in the input; an unselected one never |
| Collections.FilterOfFilterBound | Final.py:316-321 | selecting from the high-view subset keeps no more rows than selecting from all rows |
| Collections.FilterPartition | Final.py:305-309 | two disjoint selections plus the selection of the rest account for every row exactly once |
| Sorting.Sort | Final.py:227 | the sorted table is a permutation of its input (same length, same multiset) |
| Sorting.SortSorted | Final.py:227 | for a total preorder, the sorted table is ordered by it |
| Sorting.InsertSorted | Final.py:227 | inserting into an ordered sequence keeps it ordered |
| Text.RemoveAll | Final.py:204-207 | no removed character is left, and the length drops by exactly the number of removed characters |
| Text.RemoveAllKeepsOthers | Final.py:204-207 | every character outside the removed set keeps its multiplicity |
| Text.RemoveAllTwice | Final.py:204-207 | two removal passes in sequence equal one pass removing both sets |
| Text.RemoveAllAppend | Final.py:204-207 | removal distributes over concatenation |
| Text.RemoveAllAbsent | Final.py:204-207 | removing characters that do not occur changes nothing |
| Text.RemoveAllCovered | Final.py:204-207 | a string made only of removed characters becomes empty |
| Text.SplitOn | Final.py:195 | k separators give k + 1 pieces, none holding a separator |
| Text.Split | Final.py:195 | `split(',')`: k commas give k + 1 comma-free pieces |
| Text.JoinSplit | Final.py:195 | joining the pieces with the separator gives back the input |
| Text.SplitJoin | Final.py:195 | splitting the join of separator-free pieces gives back the pieces |
| Text.Words | Final.py:347 | `split()` yields only non-empty words free of whitespace |
| Text.WordsSeparator | Final.py:347 | a whitespace character between two texts separates their words: the words of the whole are those of the left followed by those of the right, so leading, trailing and repeated whitespace add no word |
| Text.WordsOfWord | Final.py:347 | a non-empty text without whitespace is exactly one word |
| Text.SplitOnSeparator | Final.py:347 | a separator character ends the pieces of the text before it and starts those of the text after it |
| Text.SplitOnAt | Final.py:195 | a text splits at any separator position into the pieces before it followed by the pieces after it |
| Text.DropEmptyAppend | Final.py:347 | dropping empty pieces distributes over concatenation |
| Text.WordsOfJoin | Final.py:347 | words joined by single spaces split back into the same words |
| Text.NoWordsIffBlank | Final.py:347 | a string has no words exactly when every character is whitespace |
| Text.DropEmpty | Final.py:347 | keeps exactly the non-empty pieces |
| Text.LexLeTotal | Final.py:53 | any two strings are comparable under Python's string `<=` |
| Text.LexLeTransitive | Final.py:53 | Python's string `<=` is transitive |
| Frequency.ValueCounts | Final.py:218-219 | one row per distinct value with its exact number of occurrences, counts positive, ordered by descending count, counts summing to the column length, as many rows as distinct values |
| Frequency.TopK | Final.py:227 | `sort_values(...)[:k]`: min(k, rows) rows taken from the table, ordered by descending count, each at least as frequent as every row left out |
| Frequency.TopKKeys | Final.py:227 | the selected keys are keys of the table |
| Frequency.CumulativeSums | Final.py:365 | entry i is the sum of the first i + 1 counts; entries never decrease; the last is the table total |
| Frequency.TallyIsTable | Final.py:218 | the counting pass builds a table of its input whose counts sum to the input length |
| Frequency.SortKeepsTable | Final.py:53 | re-sorting a frequency table keeps it a table of the same column with the same total |
| Frequency.DistinctKeysCardinality | Final.py:218 | a table with distinct keys has as many keys as rows |
| Talks.PopularTalks | Final.py:316 | exactly the talks with at least 4,000,000 views |
| Talks.PopularTalksKeepOrder | Final.py:316 | the subset keeps the talks' relative order |
| Talks.PopularTalksMultiplicity | Final.py:316 | a kept talk occurs as often as in the input, a dropped one never |
| Themes.CleanTheme | Final.py:204-207 | no `'`, `[`, `]` or space is left, and every other character keeps its multiplicity |
| Themes.CleanThemeIsOnePass | Final.py:204-207 | the four passes in script order equal the one-pass cleanup |
| Themes.CleanThemeIdempotent | Final.py:204-207 | cleaning a cleaned theme changes nothing |
| Themes.CleanThemeColumn | Final.py:204-207 | after the four in-place passes every column entry is its original piece cleaned |
| Themes.RemoveInColumn | Final.py:204 | one in-place pass removes one character from every entry |
| Themes.RowsOf | Final.py:195-203 | a talk whose tags hold k commas yields k + 1 rows, each with that talk's views and a cleaned theme |
| Themes.RowsOfPieces | Final.py:195-203 | row i holds piece i of the tag text, cleaned |
| Themes.Explode | Final.py:203 | one row per tag piece over all talks; every theme clean; every row's views are some talk's views |
| Themes.ExplodeAppend | Final.py:203 | exploding distributes over concatenation of talk lists |
| Themes.PopularRows | Final.py:247 | exactly the exploded rows with at least 4,000,000 views |
| Themes.PopularRowsKeepOrder | Final.py:247 | the high-view rows keep their relative order |
| Themes.PopularThemeCount | Final.py:247-254 | a theme occurs in the high-view rows at most as often as in all rows |
| Themes.ThemeTable | Final.py:218-219 | a table of the theme column: distinct themes, exact positive counts, summing to the number of tag pieces, no removed character in any theme |
| Themes.PopularThemeTable | Final.py:254-255 | the same table over the high-view rows, summing to their number |
| Themes.CleanRowsTable | Final.py:218-219 | counting clean rows gives clean themes whose counts sum to the number of rows |
| Themes.PopularThemesBounded | Final.py:247-254 | every high-view theme is in the full table with a frequency at least as large |
| Themes.TopThemes | Final.py:227 | min(10, distinct themes) rows taken from the full theme table (a sub-multiset of its rows), ordered by descending count, each at least as frequent as every row left out |
| Themes.TopPopularThemes | Final.py:261 | the same selection over the high-view theme table |
| Themes.CommonThemes | Final.py:275 | a theme is common exactly when it is a key of both top-10 lists; common themes are themes of both full tables, at most ten of them |
| Themes.KeysCardinalityBound | Final.py:275 | a table has no more keys than rows |
| Themes.CleanWrapped | Final.py:204-207 | a word wrapped in removed characters cleans to the word |
| Themes.TwoTagSplit | Final.py:195 | a `['a', 'b']` tag text splits at its one comma into the two quoted parts |
| Themes.TwoTagRows | Final.py:195-207 | a talk tagged `['a', 'b']` contributes exactly the rows (views, a) and (views, b) |
| Themes.InnerSpaceRemoved | Final.py:207 | the space inside a two-word tag is removed too |
| Themes.QuotedHeadCleaned | Final.py:204-207 | a quote-led word `'a` preceded by a space cleans to the word |
| Themes.SpacedTailCleaned | Final.py:204-207 | a space-led word ` b'` followed by a quote cleans to the word |
| TitleShapes.Questions | Final.py:305 | exactly the talks whose title ends in `?` |
| TitleShapes.Exclamations | Final.py:306 | exactly the talks whose title ends in `!` |
| TitleShapes.Statements | Final.py:309 | exactly the talks whose title ends in neither |
| TitleShapes.CountShapes | Final.py:305-309 | the remainder count is never negative and equals the number of titles ending in neither character; the three classes sum to the number of talks |
| TitleShapes.CountShapesAsWritten | Final.py:307-309 | the counts as the script labels them, which still sum to the number of talks |
| TitleShapes.AsWrittenSwapsLabels | Final.py:307-308 | the as-written question and exclamation counts are the true exclamation and question counts |
| TitleShapes.AsWrittenMislabelsQuestion | Final.py:307 | for one talk titled "Why?" the true question count is 1 and the as-written one is 0 |
| TitleShapes.PopularShapes | Final.py:316-321 | the counts over the high-view subset, each at most the full-set count |
| TitleShapes.SuccessRate | Final.py:331 | undefined (ZeroDivisionError) exactly when the full class is empty; otherwise rate × class size = 100 × high-view count, and the rate lies in [0, 100] when the high-view count is at most the class size |
| TitleShapes.SuccessRates | Final.py:331-333 | the step fails exactly when some full-set class is empty; otherwise all three rates lie in [0, 100] |
| TitleShapes.SuccessRatesValues | Final.py:331-333 | each of the three rates is its class's `SuccessRate` of the high-view count over the full count, so rate × class size = 100 × high-view count |
| TitleLength.WordCount | Final.py:347 | a title has zero words exactly when it is blank |
| TitleLength.WordCountOfJoin | Final.py:347 | words joined by single spaces count as that many words |
| TitleLength.WordCountSeparator | Final.py:347 | a whitespace character adds no word: the count of the whole is the sum of the counts on either side |
| TitleLength.WordCountOfWord | Final.py:347 | a non-empty title without whitespace counts one word |
| TitleLength.WordCountsOf | Final.py:347 | one count per talk, in talk order, each that talk's title word count |
| TitleLength.LengthTable | Final.py:361-363 | a table of the count column ordered by descending frequency, counts positive, total equal to the number of talks |
| TitleLength.PopularLengthTable | Final.py:374-377 | the same table over the high-view talks, total equal to their number |
| TitleLength.PopularLengthCount | Final.py:374 | a length occurs among the high-view titles at most as often as among all titles |
| TitleLength.PopularLengthsBounded | Final.py:374-376 | every high-view length is in the full table with a frequency at least as large |
| TitleLength.CumulativeLengthFrequencies | Final.py:363-365 | running totals in table order, non-decreasing, the last one the number of talks; empty exactly when there are no talks |
| TitleLength.CumulativePopularLengthFrequencies | Final.py:377-379 | the same running totals over the high-view table, the last one the number of high-view talks |
| Years.YearOf | Final.py:50 | `split('-')[2]` is defined exactly when the date has at least two dashes, and holds no dash |
| Years.YearOfFormatted | Final.py:50 | a `dd-mm-YYYY` date yields its year |
| Years.YearsOf | Final.py:50 | defined exactly when every film date has a year, and then one year per talk, in order |
| Years.ByYearAscIsPreorder | Final.py:53 | ordering by year string is total and transitive |
| Years.TalksPerYear | Final.py:50-53 | fails exactly when some date lacks a year; otherwise a table of the year column with one row per distinct year in strictly ascending order, positive counts, summing to the number of talks |
| Years.YearTableProperties | Final.py:51-53 | sorting the year counts by year keeps the table and orders distinct years strictly |

## Left out

- CSV loading and column selection (Final.py:21, 24, 30-33): file I/O.
  A talk is given directly as a record with the four columns used.
- Epoch-to-date conversion (Final.py:36-37) depends on the local time
  zone. Film dates are given already formatted, and `Years.YearOfFormatted`
  covers the `dd-mm-YYYY` form.
- The rounded `describe()` summaries (Final.py:64, 67, 240, 352), the
  `mean()` lines (Final.py:72-75), and `corr()` and `linregress`
  (Final.py:174-178) are floating-point statistics and are not modelled.
- Every `round(..., 2)` (Final.py:331-333, 364-365, 378-379) rounds a
  floating-point quotient. The model keeps the exact value underneath.
- The percentage and cumulative-percentage columns (Final.py:364-365,
  378-379) divide by the total and round. The model keeps the integer
  frequencies, totals and running sums underneath them.
- TitleShapes.SuccessRate: computes the exact rational rate, without
  floating-point division or `round(..., 2)`.
- Plotting with seaborn, matplotlib and pandas `.plot` (Final.py:54-55,
  70-75, 88-124, 134-147, 181-183, 231, 267, 281-288) is output only.
- The sorts by views (Final.py:194, 300, 360) only reorder rows. No count
  in the model depends on row order, so the model keeps the talks in input
  order.
- The top-10 speakers and the top and bottom language selections
  (Final.py:86, 158, 162) are views-sorted slices that feed only printing
  and plots.
- The occupation group-by (Final.py:117-119) counts non-null `comments`
  under pandas' null semantics, which the model does not have.
- Frequency.ValueCounts: makes no promise about the order among themes,
  lengths or years with equal counts. pandas' default sort is not stable,
  so the script does not fix that order either.
- Text.Words: Python's whitespace set is written out. The model has no
  Unicode normalisation or case folding, and the script does not use them.
- A missing (`NaN`) tag text or title is not modelled: every record has
  all four fields.
- The success-rate step prints line 331 before line 332 can fail. The
  model has no printing, so `TitleShapes.SuccessRates` reports only
  whether the whole step succeeds.

## Findings

| source | as written | input that shows it | evidently intended | confidence | as-written member | corrected member |
|---|---|---|---|---|---|---|
| Final.py:307-308 | `totqf` is the number of `!` titles and `totef` the number of `?` titles; lines 311-312, and the mirror pair at 319-320 reported on 324-325, print them as the question and exclamation counts | one talk titled `Why?`: it is reported as 0 question titles and 1 exclamation title | `totqf` counts the `?` titles and `totef` the `!` titles | not executed | TitleShapes.CountShapesAsWritten (with TitleShapes.AsWrittenSwapsLabels, TitleShapes.AsWrittenMislabelsQuestion) | TitleShapes.CountShapes |

The same swap runs through to the success rates (lines 331-332). The rate
printed as the question rate is the `!` class's rate. Each ratio still
pairs a class with itself, so only the labels are wrong.
`TitleShapes.SuccessRates` is built on the corrected counts.
