# GreenScore analytics, modelled in Dafny

GreenScore is a dashboard that rates bank clients by how "green" their card payments are.
It joins every transaction to a merchant-category-code (MCC) reference table, which marks
the category `green` or `not green`. It then computes these figures:

- each client's GreenScore: the percentage of their transactions that are green;
- the fleet average of the GreenScores;
- the share of active clients (a score of at least 20);
- eco points (one point per rouble spent in green categories);
- progress toward a target score;
- a client's rank, activity window and tier;
- rule-based recommendations.

Its charts aggregate the same table by day, week or month, by user and by category.

This project models that analytics core on exact values:

- a transaction table is a sequence of `Tx` records;
- amounts are exact reals;
- dates are day numbers, counted from 1970-01-01;
- a status cell is text, a boolean, a whole number or missing.

The project has seven modules:

- `Frames`: the pandas operations the code relies on, stated once and generically. They are
  masks, column sums, `unique`, `groupby` with sorted keys, and the stable descending sort
  behind `sort_values(ascending=False).head(k)` and `nlargest(k)`.
- `Calendar`: the civil calendar, the weekday, and the Monday and first-of-month that start
  a `to_period('W')` or `to_period('M')` bucket.
- `Ledger`: the transaction record, the green / not-green predicates, the green percentage
  of a set of rows, and the top categories by summed amount.
- `DataLoader`: the MCC join (`merge_transaction_with_mcc`) and the date filter
  (`filter_data_by_date`).
- `Analysis`: the eleven functions of `analysis.py`.
  - `get_personalized_recommendations` is a method. Its loop stops at the first of the top
    three not-green categories that earns advice.
  - Everything else is a function.
- `Plotting`: the aggregation steps behind the charts. These are the period buckets, the
  per-period green percentages, the seven-point rolling mean, the top-five users and
  categories, and the per-client series.
- `Wrappers`: `Option` and `Result`.

## Model

| member | source | states |
|---|---|---|
| Analysis.UniqueUsers | analysis.py:246-256 | the list holds exactly the user ids that occur, strictly ascending |
| Analysis.UniqueUsersCanonical | analysis.py:256 | any strictly ascending list of exactly the occurring ids is the user list, so the result is unique |
| Analysis.UniqueUsersExample | test_analysis.py:244-252 | ids 3,1,4,1,5,9,2,6,5,3,5 give 1,2,3,4,5,6,9 |
| Analysis.ClientGreenScore | analysis.py:83-102 | the client's score lies in [0, 100] |
| Analysis.ClientGreenScoreExtremes | analysis.py:94-102 | the score is 0 iff none of the client's rows is green (an unknown client included); it is 100 iff the client has rows and all are green |
| Analysis.UserScores | analysis.py:117-121 | one entry per user id that occurs, ids ascending, each holding the green percentage of that user's rows |
| Analysis.UserScoresAreClientScores | analysis.py:18-21 | the per-user group-by gives one entry per user, in user-list order, each equal to that client's score |
| Analysis.AverageGreenScore | analysis.py:7-24 | the result is none (NaN) iff the table is empty; otherwise it lies in [0, 100] |
| Analysis.AverageIsMeanOfClients | analysis.py:18-24 | the average is the sum of the client scores over the user list, divided by the number of users; each client weighs once, whatever their row count |
| Analysis.AverageExample | test_analysis.py:20-31 | the test's five-row table (users 1, 1, 2, 2, 3; green, not green, green, green, not green) averages to 50 |
| Analysis.ExampleScores | test_analysis.py:20-31 | in that table client 1 scores 50, client 2 scores 100 and client 3 scores 0 |
| Analysis.ExampleUsers | test_analysis.py:20-31 | that table's user list is 1, 2, 3 |
| Analysis.ActiveClientsRatio | analysis.py:27-47 | the ratio lies in [0, 100]; it is 0 for an empty table |
| Analysis.ActiveRatioCountsUsers | analysis.py:43-47 | the ratio is the number of users scoring at least 20 (inclusive), out of the number of users, in percent |
| Analysis.TotalEcoPoints | analysis.py:50-66 | 0 for an empty table; non-negative when no amount is negative |
| Analysis.EcoPointsCountGreenOnly | analysis.py:61-64 | the total is the sum over all rows of the amount of green rows, with 0 for any other status |
| Analysis.ClientEcoPoints | analysis.py:134-146 | 0 for a client without rows; the value itself is given by `ClientEcoPointsOwnRows` |
| Analysis.ClientEcoPointsOwnRows | analysis.py:145-146 | a client's points are the fleet eco-point total taken over that client's rows alone |
| Analysis.TotalEcoPointsByClient | analysis.py:61-64 | the fleet total equals the sum of the clients' eco points over the user list |
| Analysis.TargetProgress | analysis.py:69-80 | a division error iff the target is 0; a NaN score stays NaN; otherwise at most 100; exactly 100 once the score reaches a positive target; below that, `score / target * 100` |
| Analysis.TargetProgressExamples | test_analysis.py:98-107 | 10, 20, 25 and 0 against the default target 20 give 50, 100, 100 and 0; 15 against 30 gives 50 |
| Analysis.RankedUsers | analysis.py:117-123 | as many entries as there are users, each one of the per-user scores, scores non-increasing |
| Analysis.RankedUsersScores | analysis.py:117-123 | every ranked entry is a user with their own score |
| Analysis.RankedUsersComplete | analysis.py:117-123 | the ranked list has one entry per user and every user appears in it |
| Analysis.RankedUsersOrder | analysis.py:123 | ranked entries run by score descending; equal scores keep ascending user id (the stable sort after the sorted group-by) |
| Analysis.RankedUsersSpec | analysis.py:117-123 | the ranked list is every user exactly once, with their own score, ordered by score descending and then by user id |
| Analysis.ClientRanking | analysis.py:105-131 | a known client gets a rank in 1..number of users; the rank is number of users + 1 iff the client has no rows |
| Analysis.RankingOrder | analysis.py:123-128 | two distinct clients never share a rank; u ranks before v iff u's score is higher, or equal with a smaller id |
| Analysis.RanksArePermutation | analysis.py:123-128 | every rank from 1 to the number of users is held by some client |
| Analysis.EarliestDate | analysis.py:165 | the minimum: a date of some row, and no later than any row's date |
| Analysis.LatestDate | analysis.py:166 | the maximum: a date of some row, and no earlier than any row's date |
| Analysis.ClientActivityPeriod | analysis.py:149-168 | not available iff the client has no rows; otherwise first ≤ last, both are dates of the client's rows, and every client row lies between them |
| Analysis.ClientStatus | analysis.py:171-188 | four tiers with inclusive thresholds 25, 15 and 5, each iff its score band |
| Analysis.ClientStatusMonotone | analysis.py:181-188 | a higher score never yields a lower tier |
| Analysis.LabelInjective | analysis.py:181-188 | each tier has its own label text: two tiers share a label iff they are the same tier |
| Analysis.MessageInjective | analysis.py:206-241 | each advice has its own text, fixed word for word: two advice values share a text iff they are the same advice |
| Analysis.Messages | analysis.py:205-241 | one text per advice, in order, each the fixed text of that advice; two entries carry the same text iff they are the same advice |
| Analysis.Lower | analysis.py:214 | `lower()` keeps the length; no capital A–Z, А–Я or Ё is left; every other character is kept; each capital becomes its small letter |
| Analysis.ContainsAt | analysis.py:214 | the substring test holds iff the word occurs at some position |
| Analysis.CategoryAdvice | analysis.py:214-226 | the café advice iff a café word occurs in the lower-cased category; the fuel advice iff no café word does and a fuel word does; none otherwise |
| Analysis.CategoryAdviceExamples | analysis.py:214 | the upper-case "КАФЕ" and the longer name "Кофейня" earn the café advice |
| Analysis.FuelAdviceExample | analysis.py:214-226 | "Автомойка" holds no café word and the fuel word "авто", so it earns the fuel advice |
| Analysis.FirstAdvice | analysis.py:213-233 | the chosen advice is café, fuel or general |
| Analysis.FirstAdviceSpec | analysis.py:213-233 | the advice is general iff no category earns one; otherwise it is the advice of some category, and every earlier category earns none |
| Analysis.Recommendations | analysis.py:202-243 | one or two pieces of advice; a second one is always the low-score advice |
| Analysis.RecommendationsShape | analysis.py:202-243 | a client without rows gets exactly the no-data message. Otherwise one or two messages: the first is café, fuel or general; the second appears iff the score is below 10 and is the low-score advice |
| Analysis.PersonalizedRecommendations | analysis.py:191-243 | the texts returned are the messages of the recommendation list: no-data; or the first earned or general advice, then the low-score advice when the score is below 10 |
| Analysis.ScanCategories | analysis.py:213-226 | the loop returns nothing iff no category earns advice; otherwise exactly the first category's earned advice |
| Ledger.ClientRows | analysis.py:203 | a row is kept iff it belongs to the client |
| Ledger.GreenPercent | analysis.py:19 | the green share of a set of rows lies in [0, 100] |
| Ledger.GreenPercentExtremes | analysis.py:19 | 0 iff no row is green; 100 iff there are rows and all are green |
| Ledger.GreenPercentRatio | analysis.py:102 | over non-empty rows the share is the green count / the row count × 100 |
| Ledger.CategoryTotals | analysis.py:211 | one entry per category that occurs, names ascending, each holding the summed amount of that category's rows |
| Ledger.TopCategories | analysis.py:211 | Min(k, number of categories) entries, each one of the category totals, amounts non-increasing |
| Ledger.TopCategoriesSpec | analysis.py:211 | the top k categories: as many as k allows; a category is a key iff it occurs; each entry carries its exact amount sum; ordered by sum descending, ties by name; any category left out sums to no more than each one listed |
| Frames.Filter | data_loader.py:111-112 | a mask keeps exactly the rows it holds for, never more rows than the input |
| Frames.FilterConcat | data_loader.py:112 | masking keeps input order: masking a concatenation masks each part |
| Frames.WithKey | analysis.py:203 | the rows with key k are exactly the input rows whose key is k |
| Frames.Percent | analysis.py:47 | `part / whole * 100`, and 0 for no rows, lies in [0, 100]; it is 0 iff nothing counts, 100 iff everything does |
| Frames.MeanBounds | analysis.py:24 | the mean of a non-empty column stays within bounds on its entries |
| Frames.UniqueKeys | analysis.py:256 | the distinct keys, each once, exactly those that occur |
| Frames.UniqueKeysIncreasing | analysis.py:256 | the distinct keys come out in increasing order |
| Frames.GroupBy | analysis.py:18 | one group per distinct key in key order, each holding exactly that key's rows |
| Frames.GroupsNonEmpty | analysis.py:18 | no group is empty, so a group's share never divides by 0 |
| Frames.Aggregate | analysis.py:18-20 | the keys are the sorted distinct keys; each value is the function applied to that key's rows |
| Frames.AggregateEntries | analysis.py:18-20 | an entry (k, v) exists iff k occurs and v is the value of k's group |
| Frames.DescendingOrder | analysis.py:123 | a permutation of the row positions in which each earlier position has a larger value, or an equal value and a smaller original position |
| Frames.TopEntries | plotting.py:105 | the head of the stable descending sort: Min(k, n) entries of the input, values non-increasing |
| Frames.TopEntriesSelectsLargest | plotting.py:137 | every entry left out is at most every entry kept; with k ≥ n nothing is left out |
| Frames.TopEntriesTies | analysis.py:123 | with keys increasing, equal values come out in increasing key order |
| Frames.TopEntriesPrefix | analysis.py:211 | the top k is the head of the top m for k ≤ m |
| Frames.TopOfAggregate | plotting.py:104-105 | the top k groups: the size; each entry is an occurring key with its group's value; values descending with ties by key; omitted keys are no larger; complete when k covers every key |
| DataLoader.FirstPresent | data_loader.py:57-79 | the first alias present, or none iff no alias is a column |
| DataLoader.FlagToStatus | data_loader.py:64 | exactly True maps to green and exactly False to not green; every other cell, integers included, becomes missing |
| DataLoader.ResolveStatus | data_loader.py:57-70 | the classification column has one cell per reference row: the first of status, green_status, is_green (mapped) or color; all not green when none exists |
| DataLoader.ResolveCodes | data_loader.py:72-79 | the code column is mcc_code when present, else mcc when present, else mcc_cd; an error with the fixed message iff none of the three exists |
| DataLoader.Fill | data_loader.py:91 | a missing cell becomes not green; any other cell is unchanged |
| DataLoader.Positions | data_loader.py:82-88 | the positions of the reference rows whose code equals the transaction's, strictly ascending, and every such position is listed |
| DataLoader.Matches | data_loader.py:82-88 | the matches number at most the reference rows |
| DataLoader.MatchesAtPositions | data_loader.py:82-88 | the matches are exactly the classifications at the matching positions: one per matching reference row, in reference order |
| DataLoader.JoinRow | data_loader.py:82-91 | each transaction yields at least one row, each a copy of it with a non-missing status |
| DataLoader.JoinRowMatches | data_loader.py:82-91 | a transaction without a match yields one not-green copy; otherwise one copy per match, in reference order, the k-th carrying the filled k-th match |
| DataLoader.Join | data_loader.py:82-91 | the join has at least as many rows as the input, none with a missing status |
| DataLoader.Merge | data_loader.py:39-93 | a table with a status column comes back unchanged; otherwise an error (with its message) iff the reference table has no code column; on success the rows are the left join of the transactions on the resolved code and status columns, every row has a status and no row is lost |
| DataLoader.MergeKeepsTransactions | data_loader.py:81-91 | a successful merge loses no transaction and invents none: each input row has a copy in the output, and each output row is an input row with at most its status changed |
| DataLoader.MergeIdempotent | data_loader.py:52-54 | merging a merged table again changes nothing |
| DataLoader.JoinConcat | data_loader.py:82-88 | the left join keeps input order: joining two blocks is joining each in turn |
| DataLoader.JoinDropsNone | data_loader.py:82-88 | every input transaction appears in the output with all its fields |
| DataLoader.JoinInventsNone | data_loader.py:82-91 | every output row is an input transaction with, at most, a different status |
| DataLoader.Lookup | data_loader.py:82-91 | the dictionary-lookup status is never missing; it is not green for an unknown code and the filled status of the first matching row otherwise |
| DataLoader.JoinUniqueCodes | data_loader.py:82-91 | with distinct codes, the join yields one row per transaction, in order, carrying the looked-up status |
| DataLoader.MatchesUnique | data_loader.py:82-91 | with distinct codes, at most one reference row matches, and the lookup is its filled status |
| DataLoader.NoMatches | data_loader.py:82-88 | a code absent from the reference matches no row |
| DataLoader.JoinRowUnique | data_loader.py:81-91 | with distinct reference codes a transaction joins to exactly one row, carrying its looked-up status |
| DataLoader.MergeUniqueCodes | data_loader.py:56-93 | with distinct codes, merging a table without a status column succeeds, keeps the row count and gives each row its looked-up status |
| DataLoader.FilterByDate | data_loader.py:96-114 | a table without dates is returned as it is; otherwise the rows kept are exactly those dated within both bounds inclusive, and the flags are kept |
| DataLoader.FilterByDateConcat | data_loader.py:111-112 | the filter keeps row order |
| DataLoader.FilterByDateTwice | data_loader.py:110-114 | filtering twice is filtering once to the intersection of the ranges |
| Calendar.ToDate | plotting.py:55 | a day number becomes a valid civil date |
| Calendar.DayNumberOfToDate | plotting.py:53-55 | converting a day number to a date and back is the identity |
| Calendar.YearStartClosed | plotting.py:53-55 | the day number of 1 January of year y is 365 days per year since 1970 plus the Gregorian leap days in between |
| Calendar.DayOfWeek | plotting.py:53 | Sakamoto's day-of-week formula for a civil date gives a weekday in 0..6, Monday first |
| Calendar.CalendarAnchors | plotting.py:53 | day 0 is 1 January 1970; by the formula, 1 January 1970 is a Thursday, 1 January 2000 a Saturday and 1 January 2024 a Monday |
| Calendar.WeekdayOfDate | plotting.py:53 | the weekday of every day number agrees with the formula's day of the week of its civil date |
| Calendar.Weekday | plotting.py:53 | the weekday lies in 0..6 (0 is Monday) |
| Calendar.WeekStart | plotting.py:53 | the day it returns is a Monday in the civil calendar, on or before the date and less than seven days before it |
| Calendar.SameWeek | plotting.py:53 | two dates share a weekly bucket iff the second lies in the Monday-to-Sunday week of the first |
| Calendar.MonthStart | plotting.py:55 | the first day of the date's month, within that month's length before it |
| Calendar.SameMonth | plotting.py:55 | two dates share a monthly bucket iff they fall in the same year and month |
| Plotting.GranularityOf | plotting.py:50-55 | "Дни" selects days and "Недели" weeks; any other name selects months |
| Plotting.PeriodStart | plotting.py:50-55 | the plotted start of a bucket is no later than the date: the date itself; the civil Monday of its Monday-to-Sunday week, less than seven days before it; or the first of its month |
| Plotting.PeriodBuckets | plotting.py:50-55 | two dates share a period iff they lie in the same bucket; a period start is its own period start |
| Plotting.FleetTrend | plotting.py:36-60 | one point per period holding a row with a status, periods ascending, each the green percentage of that period's rows with a status |
| Plotting.FleetTrendSpec | plotting.py:50-60 | periods ascending; a period appears iff some row with a status falls in it; its value is the green count over the period's rows with a status, × 100 |
| Plotting.WindowStart | plotting.py:188 | the window ending at position i starts at max(0, i − 6), so it holds min(i + 1, 7) entries |
| Plotting.RollingMean | plotting.py:188 | one rolling value per input value |
| Plotting.RollingMeanWindow | plotting.py:188 | the first value is its own mean; at positions 0 to 5 the value is the mean of all values so far; from position 6 on, the mean of the last seven |
| Plotting.RollingMeanBounds | plotting.py:188 | bounds on the inputs bound every rolling mean |
| Plotting.RollingMeanCausal | plotting.py:188 | a rolling value depends only on the values up to its position |
| Plotting.UserTrend | plotting.py:170-188 | the client's periods in ascending order; each with its green share and amount sum; the rolling mean of the shares |
| Plotting.UserTrendSpec | plotting.py:170-185 | periods ascending; a period appears iff a client row falls in it; each point's share is green / rows × 100 over a non-empty period, within [0, 100] |
| Plotting.UserTrendAmounts | plotting.py:180-183 | the per-period amounts add up to the client's total amount |
| Plotting.UserTrendRollingBounds | plotting.py:188 | every smoothed value lies in [0, 100] |
| Plotting.GreenShares | plotting.py:127-134 | one entry per user with a row that has a status, ids ascending, each the green percentage of those rows |
| Plotting.TopGreenUsers | plotting.py:137 | Min(5, number of users) entries, each one of the users' green shares, shares non-increasing |
| Plotting.TopGreenUsersEntries | plotting.py:127-137 | each top user has a row with a status, and carries the green share of those rows |
| Plotting.TopGreenUsersOrder | plotting.py:137 | at most five users; shares descending, ties by ascending id; a user left out has no higher share than any user shown |
| Plotting.GreenSharesWithoutMissing | plotting.py:127-133 | with no missing status, each user's share is their GreenScore |
| Plotting.TopGreenCategories | plotting.py:100-105 | Min(5, number of green categories) entries, each one of the green rows' category totals |
| Plotting.TopGreenCategoriesSpec | plotting.py:101-105 | at most five categories, each occurring among the green rows with its exact amount sum, amounts non-increasing |
| Plotting.UserTopGreenCategories | plotting.py:228-233 | Min(5, number of categories) entries, each one of the category totals of the client's green rows |
| Plotting.UserTopGreenCategoriesSpec | plotting.py:229-233 | the same for the client's green rows |
| Plotting.UserTopNotGreenCategories | plotting.py:260-265 | Min(5, number of categories) entries, each one of the category totals of the client's not-green rows |
| Plotting.UserTopNotGreenCategoriesSpec | plotting.py:261-265 | the same for the client's not-green rows |
| Plotting.RecommendationCategoriesAreChartPrefix | analysis.py:211 | the three categories the recommendations scan are the head of the client's top-five not-green chart |

## Left out

- The Streamlit page, the Plotly figures, their titles, colours and axis labels: presentation only.
- `load_demo_data`, CSV reading and caching: file I/O.
- Floating point: the model uses exact reals. There is no rounding, no NaN arithmetic and no float division by a NaN count. A NaN average is `None`.
- Date-time values: dates are whole day numbers. There is no time of day, no time zones and no `strftime` text. The activity window is returned as two day numbers, not as `YYYY-MM-DD` strings.
- Analysis.TargetProgress: returns a division error for a zero target, as Python floats do. The app passes a numpy float score, which divides by zero without an error: the result is then 100 for a positive score, NaN for a zero score and minus infinity for a negative one. That path is not modelled.
- Analysis.ClientStatus: takes an exact score. A NaN score, which would fall through to the lowest tier in Python, is not represented.
- The two-argument tier function and `get_user_benefits`, which the app and the tests call: `analysis.py` defines neither, so neither is modelled.
- Analysis.Lower: lower-cases only A–Z, А–Я and Ё. Python's full Unicode `lower()` is not modelled. The category keywords are lower-case Cyrillic, so they are unaffected.
- Analysis.PersonalizedRecommendations: builds a list of advice values and maps them to their fixed texts, where the source appends the texts directly. The texts are the same.
- Frames.DescendingOrder: models a stable sort. pandas' default quicksort is stable only for small inputs; on long tables its tie order can differ.
- DataLoader.FlagToStatus: follows pandas 2, whose dictionary lookup for `map` is keyed by a boolean index that finds only boolean cells, so an integer 0/1 `is_green` column becomes all missing and then all 'not green'. Older pandas kept an object index that matches 1 and 0 as True and False. That behaviour, and a mixed object column, are not modelled.
- DataLoader.Merge: does not model the errors pandas raises for a code column of a non-integer type. A non-integer code cell never matches.
- DataLoader.Merge: drops the extra `mcc_code` column that the join copies into the output table. Nothing downstream reads it.
- The status pie chart (`value_counts` of the status column) is not modelled. It only counts.
- The period labels of the line charts (`period_label`): text for titles only.

