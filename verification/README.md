# Tech mental-health survey dashboard: the filter and aggregate pipeline

The dashboard (`Final.py`) loads one record per survey response. It narrows
the records to a *view* with three sidebar controls: a country multiselect, a
gender multiselect and an age slider. Every tab is drawn from that view. This
project models the computations behind those tabs as pure Dafny functions
over `seq<Record>` and proves the properties they promise:

- **Row filter** (`RowFilter`). An empty multiselect falls back to the
  dataset's whole column. The view keeps a row when its country and its
  gender are selected and its age lies between the slider's ends, both ends
  included.
- **Entries per country** (`CountryCounts`). The `value_counts` table behind
  the world map.
- **Family history by country, top 10** (`FamilyHistory`). The view is
  grouped by country and each answer is counted. The result is unstacked into
  one column per answer, with 0 where a country never gave that answer. It is
  then sorted by the `Yes` column, largest first, and cut to ten rows.
- **KPIs** (`Kpis`). "Total Entries" and the "Currently Receiving Treatment"
  rate.
- **Monthly treatment series** (`MonthlyTrend`). The view is resampled to
  calendar months, the recorded treatment answers are counted per month, and
  the months are numbered by `month_index`.

`Survey` holds the record type and calendar months. `Sequences` holds the
distinct-values, descending-sort, `head` and sum tools that the tables share.
`Dashboard` chains the stages in the script's order. Two of them can raise,
and a raised exception ends the run (see below).

A record's `treatment` and `familyHistory` are `Option<string>`, because the
survey leaves them blank at times. pandas' `count` and `value_counts` skip
those blanks, and so does the model. A timestamp is kept as a `YearMonth`,
the only resolution at which the dashboard uses it.

The model follows pandas' behaviour in five places where it is easy to get wrong:

- **The rate of an empty view.** On an empty view, `(x == 'Yes').mean()` is
  NaN. It is not 0. `Kpis.ComputeKpis` gives `None` there. In the script that
  rate is never shown: an empty view has no `Yes` answer, so the run has
  already stopped at the family-history table (`Dashboard.EmptyViewStops`).
- **Months without rows.** `resample('M')` emits months that hold no rows,
  with a count of 0. The series is therefore contiguous from the first month
  to the last.
- **Sort order.** `sort_values` and `value_counts` use a sort that is not
  stable. The contracts say nothing about the order of rows with equal
  counts. `Sequences.SortDesc` picks one such order.
- **A missing `Yes` column.** When no row of the view answered `Yes`, the
  unstacked frame has no `Yes` column and `sort_values(by='Yes')` raises.
  `FamilyHistory.TopFamilyHistory` returns `Err(MissingYesColumn)` in that
  case. The exception ends the run, so the KPI and trend tabs are not drawn.
  This includes the empty view. The intended behaviour is that an empty view
  yields empty tables and a 0 rate rather than an error. The model follows the
  script as written.
- **A string KPI column.** The KPI selectbox offers `age`, `treatment` and
  `family_history`. The mean at Final.py:95 of a string column raises as soon
  as the column holds an answer, and that also ends the run. A column whose
  answers are all blank does not raise: its mean is NaN and the run goes on.
  On the `family_history` column the mean always raises by this point,
  because the table before it needed a `Yes` answer. `Dashboard.Run` returns
  the stage at which a run stops.

## Model

| member | source | states |
|---|---|---|
| `Survey.MonthOfNumber` | Final.py:118 | The month with number n is a valid calendar month whose number is n. |
| `Survey.MonthNumberRoundTrip` | Final.py:118 | Numbering a valid month and decoding the number gives the same month back. |
| `Survey.MonthNumberInjective` | Final.py:118 | Two valid months with the same number are the same month, so month buckets are well defined. |
| `Survey.MonthNumberOrder` | Final.py:118 | Month numbers order months as the calendar does: by year, then by month. |
| `Survey.CountCountry` | Final.py:66 | A country's row count is at most the view's length, and it is positive exactly when the country occurs in the view. |
| `Survey.Countries` | Final.py:21 | definition: the set of countries of a sequence of rows; on the dataset it is the `df['country']` fallback of an empty country multiselect. |
| `RowFilter.Resolve` | Final.py:20-33 | A non-empty multiselect is used as given. An empty one admits every country (or gender) of the dataset. The slider bounds are passed through. |
| `RowFilter.Genders` | Final.py:31 | definition: the set of genders of the dataset, the `df['gender']` fallback of an empty gender multiselect. |
| `RowFilter.Passes` | Final.py:43-45 | definition: the mask for one row: country in the resolved countries, gender in the resolved genders, and ageLo <= age <= ageHi, both bounds inclusive as in `between`. |
| `RowFilter.Select` | Final.py:42-46 | The masked rows are exactly the rows of the input that pass all three conditions, and there are no more of them than input rows. |
| `RowFilter.MaskPositions` | Final.py:42-46 | The positions where the mask is true: each in range and passing, strictly increasing, and including every passing position. |
| `RowFilter.SelectAtMaskPositions` | Final.py:42-46 | The k-th selected row is the input row at the k-th true mask position. |
| `RowFilter.Filter` | Final.py:42-46 | A row is in the view iff it is in the dataset, its country is selected or the country selection is empty, its gender is selected or the gender selection is empty, and lo <= age <= hi. The view is no longer than the dataset. |
| `RowFilter.FilterKeepsOrder` | Final.py:42-46 | The view is an order-preserving subsequence of the dataset: row k of the view is the dataset's row at a position that increases strictly with k. |
| `RowFilter.FilterIdentity` | Final.py:20-46 | With both multiselects empty and the slider covering every age, the view is the whole dataset, in order. |
| `RowFilter.SelectAll` | Final.py:42-46 | When every row passes the mask, selection returns the rows unchanged. |
| `Sequences.Distinct` | Final.py:66 | The distinct values of a column: no repeats, only values of the column, every value of the column present. |
| `Sequences.Insert` | Final.py:83 | Inserting into a descending sequence keeps it descending, and the first element is the new one or the old first one. |
| `Sequences.InsertAddsElement` | Final.py:83 | Inserting adds exactly one occurrence of the new element and nothing else. |
| `Sequences.InsertAddsKey` | Final.py:83 | Inserting adds the new element's key to the column's sum. |
| `Sequences.SortDesc` | Final.py:83 | The descending sort is non-increasing by the key, is a permutation of its input, and keeps the column's sum. |
| `Sequences.Head` | Final.py:84 | `head(n)` keeps the first min(n, length) elements, in order. |
| `Sequences.PermutationNoDuplicates` | Final.py:83 | Reordering a sequence without repeats leaves it without repeats. |
| `Sequences.PermutationMembers` | Final.py:83 | Reordering keeps exactly the same members. |
| `Sequences.PermutationKeepsKeys` | Final.py:83 | After reordering rows keyed by a list of keys, every key still has a row. |
| `Sequences.NoDuplicatesMultiplicity` | Final.py:66 | A value occurs at most once in a sequence without repeats. |
| `CountryCounts.Tally` | Final.py:66 | The tally pairs each listed country with its row count in the view, in list order. |
| `CountryCounts.CountryTable` | Final.py:66-67 | The table's countries are exactly the view's distinct countries, each once. Each count is that country's number of rows and is at least 1. Counts are non-increasing, and they sum to the view's length. |
| `CountryCounts.ColumnCountries` | Final.py:66 | The distinct values of the country column are exactly the view's countries, without repeats. |
| `CountryCounts.ReorderedTally` | Final.py:66 | Any reordering of the tally names each of the view's countries exactly once, with its correct count. |
| `CountryCounts.EntriesDescribeCountries` | Final.py:66 | Distinct rows that each carry their country's count name distinct countries. |
| `CountryCounts.TallyProperties` | Final.py:66 | The tally of distinct countries has no repeated rows, and each row's count is its country's, at least 1. |
| `CountryCounts.TallyOfNothing` | Final.py:66 | Tallying an empty view gives counts that sum to 0. |
| `CountryCounts.TallyAppend` | Final.py:66 | One more row adds to the tally's sum the number of times its country is listed. |
| `CountryCounts.CountAppend` | Final.py:66 | One more row adds one to its own country's count and leaves every other country's count alone. |
| `CountryCounts.TallySum` | Final.py:66 | Tallying every country of the view once accounts for every row exactly once. |
| `FamilyHistory.CountFamily` | Final.py:80-82 | The count of a (country, answer) pair is at most the country's row count, and it is positive exactly when some row of that country gave that answer. Otherwise it is the 0 that `fill_value=0` writes. |
| `FamilyHistory.Categories` | Final.py:81-82 | definition: the recorded family-history answers in the view, which become the columns `unstack` creates. |
| `FamilyHistory.AnsweringCountries` | Final.py:80-81 | definition: the countries with at least one recorded answer, the groups `value_counts` reports once blanks are dropped. |
| `FamilyHistory.RowFor` | Final.py:82 | definition: a country's unstacked row, holding a count under every answer column and 0 (`fill_value=0`) where the country never gave that answer. |
| `FamilyHistory.YesCount` | Final.py:83 | definition: the `Yes` column of a row, which the table is sorted by. |
| `FamilyHistory.NoCount` | Final.py:82 | definition: the `No` column of a row, 0 when the country never answered `No`. |
| `FamilyHistory.AnsweringColumn` | Final.py:80-81 | The group keys are exactly the countries with at least one recorded answer. |
| `FamilyHistory.Unstacked` | Final.py:82 | The unstacked table has one row per listed country, holding that country's counts. |
| `FamilyHistory.Ranked` | Final.py:80-83 | The full sorted table: `Yes` counts non-increasing; each answering country exactly once, with its own counts. |
| `FamilyHistory.ReorderedRows` | Final.py:80-83 | Any reordering of the unstacked rows names each answering country exactly once, with its own counts. |
| `FamilyHistory.TopFamilyHistory` | Final.py:79-85 | Err exactly when no row answered `Yes`. Otherwise: at most 10 rows; `Yes` counts non-increasing; distinct countries, each present in the view. Every row has a column for every answer in the view, holding that country's count (0 when it never gave that answer). |
| `FamilyHistory.TopTenSelection` | Final.py:80-84 | A view country left out of the table answered `Yes` no more often than any country in the table. A table with fewer than 10 rows leaves out no answering country. |
| `FamilyHistory.HeadOfRankedKeepsLeaders` | Final.py:83-84 | Cutting the ranked table to ten rows keeps the countries with the most `Yes` answers. |
| `FamilyHistory.YesOfRow` | Final.py:82 | A country's `Yes` column is its count of `Yes` answers. |
| `FamilyHistory.HeadKeepsLeaders` | Final.py:84 | An element that `head` drops from a descending sequence lies past a full cut and is at most every element kept. |
| `FamilyHistory.YesNoAddUp` | Final.py:80-82 | When every answer is `Yes` or `No`, a table row's `Yes` and `No` columns add up to its country's row count in the view. |
| `FamilyHistory.ColumnOrZero` | Final.py:82 | Reading any answer column of a row gives that country's count, and an absent column reads as 0. |
| `FamilyHistory.YesNoPartition` | Final.py:81 | When every answer is `Yes` or `No`, a country's `Yes` and `No` counts add up to its row count. |
| `FamilyHistory.YesNoWithinEntries` | Final.py:80-82 | For any answers, blanks included, a table row's `Yes` and `No` columns add up to at most its country's row count in the view. |
| `FamilyHistory.YesNoAtMost` | Final.py:81 | A country's `Yes` and `No` counts together are at most its row count. |
| `Kpis.CountTreatmentYes` | Final.py:96 | The `Yes` count is at most the view's length. It is positive iff some row answered `Yes`, and it equals the length iff every row did. |
| `Kpis.ComputeKpis` | Final.py:94-96 | Total entries is the view's length. The treated count is the `Yes` count and never exceeds the total. The rate is undefined exactly for an empty view; otherwise it lies in [0, 100] and is the percentage of `Yes` rows. Line 95's mean is not part of this. |
| `Kpis.Percentage` | Final.py:96 | The percentage of a part of a positive whole lies in [0, 100], and percentage × whole = 100 × part. |
| `Kpis.PercentageExtremes` | Final.py:96 | A percentage is 100 exactly for the whole and 0 exactly for nothing. |
| `Kpis.RateExtremes` | Final.py:96 | On a non-empty view the rate is 100 iff every row is in treatment, and 0 iff none is. |
| `MonthlyTrend.FirstMonth` | Final.py:118 | The earliest month is at or before every row's month. |
| `MonthlyTrend.LastMonth` | Final.py:118 | The latest month is at or after every row's month. |
| `MonthlyTrend.MonthBoundsAttained` | Final.py:118 | The earliest and the latest months are each the month of some row. |
| `MonthlyTrend.CountTreated` | Final.py:118 | The number of recorded treatment answers is at most the view's length. |
| `MonthlyTrend.CountTreatedBetween` | Final.py:118 | definition: the number of rows with a recorded treatment answer whose month number lies in a half-open span of months. |
| `MonthlyTrend.CountTreatedIn` | Final.py:118 | definition: `count` of the treatment column within one month's bucket, blanks skipped. |
| `MonthlyTrend.Series` | Final.py:118-119 | A run of buckets has one bucket per month of the run. |
| `MonthlyTrend.SeriesBuckets` | Final.py:118-119 | Bucket i of a run is month m + i, indexed k + i, with that month's count. |
| `MonthlyTrend.MonthlyBuckets` | Final.py:118-119 | An empty view gives no buckets. Otherwise there is one bucket per month from the earliest month to the latest. Bucket i is the i-th month after the earliest, has `month_index` i, and counts the recorded treatment answers of its month. |
| `MonthlyTrend.BucketsSpanView` | Final.py:118 | The first and last buckets are months of real rows, and every row's month has a bucket. |
| `MonthlyTrend.EmptyMonthCountsZero` | Final.py:118 | A month in which no row has a recorded treatment answer counts 0, gap months included. |
| `MonthlyTrend.NoneInRange` | Final.py:118 | A span of months holding no recorded answer counts 0. |
| `MonthlyTrend.BucketsSumToTreated` | Final.py:118 | The bucket counts sum to the number of view rows with a recorded treatment answer. |
| `MonthlyTrend.SpanSum` | Final.py:118 | A run of months that holds every row has counts summing to every recorded answer. |
| `MonthlyTrend.SeriesSum` | Final.py:118 | The buckets of a run of months sum to the count over that run. |
| `MonthlyTrend.EmptyRange` | Final.py:118 | An empty span of months counts 0. |
| `MonthlyTrend.SplitFirstMonth` | Final.py:118 | Counting a span splits into its first month plus the rest. |
| `MonthlyTrend.WholeRange` | Final.py:118 | A span that holds every row counts every recorded answer. |
| `Dashboard.Run` | Final.py:66-119 | A run stops at the family-history table exactly when no row answered `Yes`. Otherwise it stops at the KPI mean exactly when `family_history` is selected, or `treatment` is selected and some row recorded a treatment answer. Otherwise it completes, and each tab holds its stage's result on the view. |
| `Dashboard.MeanRaises` | Final.py:95 | definition: whether the KPI mean raises: never on `age`, and on a string column exactly when the column holds an answer. |
| `Dashboard.YesIsRecorded` | Final.py:83 | A `Yes` column exists only when some row recorded a family-history answer. |
| `Dashboard.BlankTreatmentCompletes` | Final.py:95-96 | With a `Yes` answer present and every treatment answer blank, the treatment KPI does not stop the run, and the rate shown is 0. |
| `Dashboard.EmptyViewStops` | Final.py:83 | An empty view stops the run at the family-history table, whatever the KPI choice. |
| `Dashboard.CompletedRunShowsRate` | Final.py:83-119 | A run that completes has a non-empty view, so its treatment rate is defined and its monthly series has at least one bucket. |

## Left out

- CSV loading and timestamp parsing (Final.py:8-9) are file I/O and a
  library parser. The dataset is a parameter, and each timestamp is a
  `YearMonth`. `Survey.WellFormed` states that every month is a real one.
- Missing country, gender, age or timestamp values are not modelled. Only
  `treatment` and `family_history` may be blank.
- The other columns of the survey are left out. The pipeline never reads them.
- The sidebar widgets, tabs, metric cards, markdown and CSS are user
  interface. The slider's default range (20, 50) and its bounds are the
  widget's, so the model takes any selection as input.
- The choropleth, bar, histogram (20 bins), scatter and line charts are
  rendering done by a plotting library.
- The linear regression and its predictions (Final.py:122-125) are
  floating-point numerics in a foreign library.
- Each stage is modelled on its own. In the script, the KeyError at
  Final.py:83 (no `Yes` answer, the empty view included) and the TypeError at
  Final.py:95 (a string KPI column holding an answer) end the run. The rate and the monthly
  series are therefore computed only when neither is raised, and
  `ComputeKpis`' `None` rate is never displayed. `Dashboard.Run` records
  where a run stops, not what the already-drawn tabs showed.
- The KPI mean and its rounding (Final.py:95) are a floating-point mean over
  a user-chosen column. On a string column holding an answer it raises.
- The rate's formatting to one decimal place (Final.py:96) is display only.
  `Kpis.ComputeKpis` returns the exact rational rate.
- `Sequences.SortDesc` stands for pandas' sorts, which are not stable. It is
  one descending sort; no contract fixes the order among equal counts.
- The month labels are left out. pandas labels each bucket with the month's
  last day; the model labels it with a `YearMonth`.
