# Questionnaire analysis, modelled in Dafny

This project models `QuestionnaireAnalysis` from `hw5.py`. That class loads the results of a
questionnaire into a pandas table. Each row is one respondent, with the columns `id`, `age`,
`gender`, `email` and the scores `q1`..`q5`. The class then runs four analyses on the table:

- `people_in_bin` counts the ages in ten fixed intervals.
- `remove_rows_without_mail` keeps the rows whose email passes a test.
- `fill_na_with_mean` fills missing scores with the mean of the same row.
- `correlate_gender_age` groups the rows by gender and by "over 40", and averages the scores of each group.

The table is a sequence of `Respondent` records. A NaN cell is `None`. Means are taken over `real`.

Modules:

- `Records` (records.dfy): the row type and the score columns.
- `Stats` (stats.dfy): sums, and means that skip missing values, as pandas' `mean()` does.
- `AgeBins` (age_bins.dfy): `people_in_bin`.
- `Emails` (emails.dfy): `remove_rows_without_mail`.
- `Imputation` (imputation.dfy): `fill_na_with_mean`.
- `Grouping` (grouping.dfy): the computing part of `correlate_gender_age`.
- `Questionnaire` (questionnaire.dfy): the class itself.

The class holds `data: Option<Table>`. It is `None` until `ReadData`, because `self.data` does
not exist before `read_data`. Every analysis requires `Loaded()`: in Python, calling one earlier
raises `AttributeError`. The class also holds `over40: Option<seq<bool>>`. This is the
`over 40` column that `correlate_gender_age` adds to `self.data`. `FillNaWithMean` and
`CorrelateGenderAge` are methods that modify the object. `PeopleInBin` and
`RemoveRowsWithoutMail` are functions that only read it.

## Where the code and its documentation disagree

The model follows the code in each case.

- **Email test.** The docstring says an email is valid when it contains `@` and `.co`. The code
  calls `str.contains('@' and '.co')`. The Python expression `'@' and '.co'` evaluates to
  `'.co'`, and `str.contains` reads that as a regular expression. So a row is kept exactly when
  its email has `co` at some position `i >= 1` and the character before it is not a newline
  (`.` does not match `\n`). `@` is never looked at.
- **Row labels.** The docstring of `remove_rows_without_mail` promises an index reset. The code
  does none. The surviving rows keep their original labels.
- **Reported rows.** The docstring of `fill_na_with_mean` promises the indices of the rows whose
  grades were generated. The code (`nonzero()[0]` on the null mask) gives one entry per missing cell
  instead. A row with two gaps is listed twice. A row with no score at all is listed five times,
  although no grade can be generated for it. `Imputation.FillNaWithMean` states the code's result.
- **Bin edges.** The bins come from `pd.IntervalIndex.from_tuples`, which by default makes
  intervals closed on the right: `(0,10], (10,20], ..., (90,100]`. An age of 40 therefore falls
  in `(30,40]`. Ages of 0 or less, ages above 100, and missing ages are not counted at all, so the
  counts add up to the number of ages in `(0,100]`, not to the number of ages present.

## Model

| member | source | states |
|---|---|---|
| `Records.WithScores` | hw5.py:84 | writing five scores into a row replaces exactly q1..q5; id, age, gender and email are unchanged |
| `Stats.MeanOfPresent` | hw5.py:83 | the NaN-skipping mean is missing exactly when every value is missing |
| `Stats.MeanWithin` | hw5.py:83 | a mean of present values stays within any bounds that hold all of those values |
| `AgeBins.Bins` | hw5.py:51 | ten bins ordered by start; bin k is (10k, 10k+10] |
| `AgeBins.BinCodeExact` | hw5.py:51-53 | `BinCode`, which models `pd.cut`, puts an age in bin k exactly when 10k < age <= 10k+10 |
| `AgeBins.BinCodeNone` | hw5.py:53 | an age falls in no bin exactly when it is missing, <= 0 or > 100 |
| `AgeBins.FortyInThirdBin` | hw5.py:51-53 | an age of exactly 40 lands in bin 3, (30,40] |
| `AgeBins.CountsAreAges` | hw5.py:53 | `CountCode`, which models `value_counts`, gives for category k the number of rows whose age lies in bin k |
| `AgeBins.CountsSumToRange` | hw5.py:53 | the ten counts add up to the number of ages in (0,100] |
| `AgeBins.PeopleInBin` | hw5.py:49-57 | exactly ten counts in bin order; count k is the number of ages in bin k; the bins are returned too; the counts add up to the ages in (0,100] |
| `Emails.SearchFinds` | hw5.py:66 | when the search for `.co` succeeds, `co` occurs after a character other than a newline |
| `Emails.SearchFindsEvery` | hw5.py:66 | every such occurrence makes the search succeed |
| `Emails.SearchDotCoExact` | hw5.py:66 | `SearchDotCo`, the `.co` search, passes iff some position i >= 1 holds `co` and position i-1 is not a newline |
| `Emails.NoCIsDropped` | hw5.py:66 | an email with no letter `c` never passes |
| `Emails.AtSignNotNeeded` | hw5.py:66 | `me.com` (no `@`) and `xco` (no dot) both pass |
| `Emails.AtSignNotEnough` | hw5.py:66 | `a@b.org` fails even though it has `@` |
| `Emails.NewlineBeforeCoIsDropped` | hw5.py:66 | a newline before `co` does not match `.` |
| `Emails.KeepValidEmails` | hw5.py:67-68 | a row survives `where` + `dropna(subset=['email'])` iff it was in the frame and its email passes |
| `Emails.KeepPreservesOrder` | hw5.py:67-68 | surviving rows keep their relative order (labels stay strictly increasing) |
| `Emails.KeepIdempotent` | hw5.py:66-70 | filtering the filtered frame again changes nothing |
| `Emails.RemoveRowsWithoutMail` | hw5.py:60-70 | the result holds exactly the rows whose email passes, each with its original label, its record and its `over 40` cell, in the original order, with no index reset |
| `Imputation.FillWith` | hw5.py:83 | `fillna(v)` on a row: present cells unchanged, missing cells become v |
| `Imputation.FillRow` | hw5.py:82-83 | a present score is unchanged; a missing score becomes the mean of the row's present scores |
| `Imputation.FillRowGaps` | hw5.py:83 | a row with some present score has no gap left; a row with none stays all-missing |
| `Imputation.FillRowKeepsMean` | hw5.py:83 | the filled row has the same mean as the original present scores |
| `Imputation.FillRowIdempotent` | hw5.py:82-83 | filling a filled row changes nothing |
| `Imputation.FillRowWithin` | hw5.py:83 | imputed scores stay within any bounds that hold the row's present scores |
| `Imputation.FillRowExample` | hw5.py:83 | the row [5, NaN, 7, NaN, 9] becomes [5, 7, 7, 7, 9] |
| `Imputation.GapCountExtremes` | hw5.py:80 | a row has no missing cell in the null mask exactly when all five scores are present, and five exactly when none is |
| `Imputation.PositionsExact` | hw5.py:80 | `Positions`, the `nonzero()[0]` row coordinates, holds row positions, in non-decreasing order, each as often as that row has missing cells |
| `Imputation.FillNaWithMean` | hw5.py:72-87 | the filled table has one filled row per input row; `inds` lists row r exactly as many times as row r has missing scores, is non-decreasing, and every entry is below the row count |
| `Imputation.CompleteRowNotReported` | hw5.py:80-83 | a row with all five scores present is not in `inds`, and its scores are unchanged |
| `Imputation.FilledTable` | hw5.py:84 | the written-back table: each row gets the returned filled scores, and nothing else changes |
| `Imputation.FilledTableIdempotent` | hw5.py:82-84 | imputing the written-back table again changes nothing |
| `Imputation.OnlyEmptyRowsStayMissing` | hw5.py:80-84 | after the write-back, the only rows with missing cells are rows that had no score at all |
| `Grouping.Over40Boundary` | hw5.py:97 | `Over40`, applied row by row by `Over40Column`, models `age > 40`: it is strict, so 40 is not over 40 and 40.5 is, and a missing age never is |
| `Grouping.ScoreCell` | hw5.py:98 | the numeric cell of score column j is the row's j-th score |
| `Grouping.MembersExact` | hw5.py:98 | `Members`, the rows `groupby` puts in group k, holds a record iff some row holding it has key (gender, over 40) = k |
| `Grouping.MembersMultiset` | hw5.py:97-98 | a record occurs in the group of its own (gender, age > 40) key exactly as often as in the table, and in no other group, so every row is weighed once |
| `Grouping.ColumnMeans` | hw5.py:98 | a group's mean row has the columns id, age, q1..q5; a column's mean is NaN exactly when every row of the group has NaN there |
| `Grouping.GroupByMean` | hw5.py:98 | `groupby(['gender','over 40']).mean()` has a row for the key of every table row and for no other key, and every group it has holds at least one row |
| `Grouping.Pop` | hw5.py:99-100 | `pop(col)` removes that column from every group and leaves the rest unchanged |
| `Grouping.CorrelateGenderAge` | hw5.py:97-100 | the result has exactly the keys (gender, age > 40) that occur, each group with at least one row; every row has exactly the columns q1..q5, so no id or age; each value is the mean of that question's present scores over the group |
| `Grouping.GroupScoreMean` | hw5.py:98-100 | the mean of question j+1 in a group is the NaN-skipping mean of the j-th `Scores` entry over the group's rows, the same row view `fill_na_with_mean` fills |
| `Grouping.RowInOwnGroup` | hw5.py:97-98 | every row's key is in the result, and the row is a member of that group |
| `Grouping.GroupMeanWithin` | hw5.py:98 | if every present value of a column lies in [lo, hi], so does that column's mean in every group of the result |
| `Grouping.TwoMenGroups` | hw5.py:97-98 | men aged 45 and 20 get `over 40` values true and false, and form two groups of one member each |
| `Grouping.SingleMean` | hw5.py:98 | the mean over a single row is that row's value |
| `Grouping.TwoMenExample` | hw5.py:97-100 | for men aged 45 and 20, the two groups (M, true) and (M, false) hold the values of their single member (so q1 scores 10 and 20 give q1 means 10 and 20) |
| `Questionnaire.QuestionnaireAnalysis.constructor` | hw5.py:14-18 | a new object keeps the file name and has no `data` yet |
| `Questionnaire.QuestionnaireAnalysis.ReadData` | hw5.py:22-27 | after loading, `data` is the parsed table and there is no `over 40` column |
| `Questionnaire.QuestionnaireAnalysis.PeopleInBin` | hw5.py:49-57 | requires loaded data; ten counts with the fixed bins, adding up to the ages in (0,100] |
| `Questionnaire.QuestionnaireAnalysis.RemoveRowsWithoutMail` | hw5.py:60-70 | requires loaded data; leaves `self.data` alone (a function); its result is a fixed point of the filter |
| `Questionnaire.QuestionnaireAnalysis.FillNaWithMean` | hw5.py:72-87 | requires loaded data; writes the filled scores back into `self.data`, and the stored scores equal the returned table; other columns and the `over 40` column are untouched |
| `Questionnaire.QuestionnaireAnalysis.CorrelateGenderAge` | hw5.py:89-108 | requires loaded data; adds `over 40 = age > 40` for every row, leaves the rest of `self.data` unchanged, and returns the grouped means of q1..q5 |

## Left out

- Plotting: `plot_hist`, and the matplotlib calls in `show_age_distrib` and `correlate_gender_age` (hw5.py:39-47, 103-107). These only display. The repeated `40` edge of the histogram (hw5.py:41) affects only the plot.
- `show_age_distrib` (hw5.py:29-37): it calls `people_in_bin` and drops the result, so it returns `None`. `PeopleInBin` models the computation.
- The constructor's `str`-to-`Path` conversion and its file check, which raises `ValueError` (hw5.py:15-20). These are filesystem I/O.
- JSON parsing in `read_data` (hw5.py:27). `ReadData` takes the already parsed records as a parameter.
- An empty record array. pandas then builds a frame with no columns, and `people_in_bin`, `remove_rows_without_mail` and `correlate_gender_age` raise `KeyError` (hw5.py:53, 66, 97). The model's records always carry every column, so on an empty table it returns ten zero counts, an empty filtered frame, an empty imputation and an empty grouping instead of failing.
- Records that all lack a column. pandas builds a frame without it, and each analysis that reads that column raises `KeyError`: without `id`, `correlate_gender_age` fails at `pop('id')` (hw5.py:99); without `gender`, it fails at the `groupby` (hw5.py:98). A missing q2..q4 instead narrows the `'q1':'q5'` slice of `fill_na_with_mean` (hw5.py:80-84). The model's records always carry every column.
- The script's `__main__` block (hw5.py:110-119). It is a driver.
- Floating point. Sums and means are exact over `real`.
- pandas dtype effects: `where` turning ints into floats, and `mean()` skipping non-numeric columns such as `email`. Newer pandas versions raise an error on such columns instead.
- A NaN email, where the `where` mask itself holds NaN. Also a NaN gender, which `groupby` would drop. Emails and genders are always strings here.
- The row order of the `groupby` result, which pandas sorts by key. The result is a map from `(gender, over 40)` keys to rows, so it has no order.
- Regular expressions in general. Only the one pattern `.co` that the code uses is modelled.
- The `AttributeError` raised when an analysis runs before `read_data`. It is a precondition (`Loaded()`), not an error value.
