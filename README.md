# Coverage audit of the Harvard Forest flux analysis

This project models `missingdata`, the per-year missing-observation audit of
the flux analysis script, and proves what it computes. The script loads a
table of daily observations whose first column is the calendar year. For
every year from the smallest to the largest year present, it reports the
number of missing daily observations:

- the expected number of days is 366 when the year is divisible by 4 and
  365 otherwise, with no century or 400-year exception;
- the observed number is the number of rows recorded for that year;
- the entry is expected minus observed, with no clamping at zero.

The model is one module, `CoverageAudit` (`coverage_audit.dfy`):

- `MissingData` is the audit as the script writes it. It takes the year
  column as a non-empty `seq<int>` and keeps the script's three append
  loops: the leap-year list, the rows-per-year list and the missing list.
  `RowsOf` models the index array that numpy's `where` returns for
  `years == y`.
- `Count`, `ExpectedDays`, `Min`, `Max`, `Gap`, `Gaps` and `Audit` are the
  specification functions. `MissingData` is proved to return exactly
  `Audit(years)`.
- The lemmas state the audit's properties: the meaning of each entry, the
  leap rule, fully missing years, negative entries for over-full years, and
  the conservation of row counts.

The input is a sequence value, so the method cannot modify it. Its result is
fixed by `ensures missing == Audit(years)`, so two calls on the same column
give the same list.

An empty column could be read as an empty audit. The script raises instead,
because `np.min` and `np.max` fail on an empty column. The model follows the
script: `MissingData` requires a non-empty column.

## Model

| member | source | states |
|---|---|---|
| `CoverageAudit.MissingData` | python_project.py:90-137 | For a non-empty year column, the three append loops return exactly `Audit` of the column: one entry per year of [min .. max], in increasing year order |
| `CoverageAudit.RowsOf` | python_project.py:121-123 | Returns the indices of the rows whose year is `y`, strictly increasing: every index points at such a row, every such row's index is in the list, and there are `Count` of them |
| `CoverageAudit.Min` | python_project.py:106 | The result is one of the column's years and no year of the column is smaller |
| `CoverageAudit.Max` | python_project.py:107 | The result is one of the column's years and no year of the column is larger |
| `CoverageAudit.Gaps` | python_project.py:128-134 | A run of `n` consecutive years yields `n` entries, and entry `i` is the gap of year `lo + i` |
| `CoverageAudit.AuditAt` | python_project.py:108-134 | The audit has `max - min + 1` entries, and the entry for year `y` in range is (366 if `y % 4 == 0`, else 365) minus the rows of `y` |
| `CoverageAudit.CenturyYearsAreLeap` | python_project.py:112-115 | Every century year in the range, such as 1900 or 2100, is audited against 366 days minus its rows |
| `CoverageAudit.CountIsMultiplicity` | python_project.py:121-123 | The per-year row count equals the year's multiplicity in the multiset of the column |
| `CoverageAudit.CountZeroIffAbsent` | python_project.py:120-125 | A year has zero rows if and only if it does not occur in the column, so the `else: 0` branch agrees with counting |
| `CoverageAudit.AbsentYearFullyMissing` | python_project.py:119-134 | A year in range with no rows is reported with its full expected count, 365 or 366 |
| `CoverageAudit.PresentYearPartlyObserved` | python_project.py:105-134 | A year that occurs in the column lies in the range, and its entry is below its expected count |
| `CoverageAudit.OverfullEntryNegative` | python_project.py:131-133 | The result is not clamped: any year in the range with more rows than expected days has a negative entry |
| `CoverageAudit.OverfullYearNegative` | python_project.py:131-133 | A concrete case of the same: 367 rows all in 2001 give the audit `[-2]` |
| `CoverageAudit.RangeTotalCoversAll` | python_project.py:106-108 | When every row's year lies in the range, the per-year counts over the range add up to the number of rows |
| `CoverageAudit.SumGaps` | python_project.py:128-134 | The entries of a range sum to its expected days minus its observed rows |
| `CoverageAudit.Conservation` | python_project.py:105-125 | Every row is counted in exactly one year of [min .. max], so the counts sum to the row count, and the audit sums to the expected days of the range minus the row count |
| `CoverageAudit.ScenarioLeapAndEmptyYear` | python_project.py:105-134 | Rows 2000, 2000, 2002, 2000 give `[363, 365, 364]`: leap year 2000 with three rows, empty year 2001 fully missing |

## Left out

- File loading with `np.genfromtxt` (python_project.py:97) is I/O through a library. The model takes the year column directly as a sequence of integers.
- The float-to-int conversion of the year column is not modelled. The script reads years as floats, truncates the minimum and maximum with `int(...)` and compares float years with integer years. The model uses integer years from the start.
- The empty column is excluded by a precondition, because `np.min` and `np.max` raise on it. There is no output to model.
- The model starts from a year column that has already been extracted. The script's failures at `data[:,0]` (python_project.py:105) therefore have no counterpart. These failures are a file with exactly one data row, which is read as a one-dimensional array, and a file with only the header. For a single row, `MissingData` returns one entry, its expected days minus 1.
- The other analyses of the script are not part of this model. These are the summary statistics, the seasonal cycle and the linear regression. They are floating-point numerics and linear algebra behind library calls.
- The plotting calls and the program entry point are not part of this model. They produce no values.
