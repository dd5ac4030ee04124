# Cohort retention matrix, modelled in Dafny

This project models the computation at the centre of the Streamlit app
`retencion_usuarios.py`. The app takes a spreadsheet of users with a
registration date and one column per month of activity. It groups users by
registration month (the cohort). For every activity column it computes the
fraction of the cohort's distinct users whose cell there is a positive
number. The result is a matrix with one row per cohort and the columns
`Total usuarios`, `Mes 0` … `Mes K-1`.

The model follows the pipeline of lines 28-70, in this order:

- `Columns`: the required-column check (`Usuario`, `Fecha registro`). Then the
  choice of activity columns: every column except `Usuario`,
  `Fecha registro` and `Mes cohorte`. Then their ordering: the Spanish month
  abbreviations `Ene` … `Dic` first, in calendar order, then all other
  columns in sheet order.
- `Cohorts`: preparation (rows whose date did not parse are dropped, and each
  kept row gets the first day of its registration month as cohort key). Then
  the `groupby` on that key, in ascending order. Then the distinct-user
  count, the distinct-active-user count and the retention fraction of a group.
- `RetentionMatrix`: the aggregation loop that fills the `cohort_data`
  dictionary, a method with two nested `while` loops. It also holds the
  `DataFrame.from_dict` assembly and `ComputeRetention`, the whole pipeline
  from table to matrix or error.
- `Labels`: the column labels, with the decimal form of the offset in
  `Mes {i}`.
- `Sheet`, `Seqs` and `Wrappers`: the data model (dates, cells, rows, tables),
  sequence facts (filtering as a list comprehension, order as subsequence,
  duplicate-freedom), and `Option`/`Result`.

Outside inputs are parameters. Each row carries the outcome of
`pd.to_datetime(..., errors='coerce')` on its date as `Option<Date>`. Each
activity cell carries the outcome of `pd.to_numeric(..., errors='coerce')` as
`Cell`: `Num(v)`, `NonNumeric` (text such as "SÍ") or `Empty`. A blank user
id is `None`. The two `st.stop()` calls become `Err` results.

Some facts about the code that a reader might not expect:

- The missing-column error always lists both required columns, because
  line 30 joins `required_cols` and not the columns that are absent.
- Column names are matched exactly. They are not lower-cased or stripped of
  accents.
- Every offset is computed for every cohort. No offset is held back as lying
  in the future.
- A cohort always has at least one row (`Cohorts.NoEmptyGroup`). However, its
  `Total usuarios` is 0 when all its user ids are blank. So the `else 0`
  branch of line 65 can be reached.

Line 63 is indented further than the `for` of line 62, but it is only a
comment. Line 64 sits at the `for`'s own indentation, so the loop has no body
and Python rejects the file as written. The model takes lines 64-66 to be the
body of that loop, run once per offset. That is evidently what the authors
meant, and it is the only reading under which the header of line 69 matches
the rows.

## Model

| member | source | states |
|---|---|---|
| `Columns.HasRequiredColumns` | retencion_usuarios.py:29 | the check of line 29; what it means is stated by `Columns.HasRequiredColumnsMeaning` |
| `Columns.HasRequiredColumnsMeaning` | retencion_usuarios.py:28-29 | the check passes exactly when both `Usuario` and `Fecha registro` are among the column names |
| `RetentionMatrix.ComputeRetention` | retencion_usuarios.py:28-70 | a missing required column gives `Err(MissingRequiredColumns([Usuario, Fecha registro]))` whatever the rows; with both present and no activity column, `Err(NoActivityColumns)`; otherwise always a matrix, rectangular, with the header for K ordered columns, the cohorts in `groupby` order, each row the cohort's user count then its fractions with no NaN cell, every fraction in [0, 1]; the warning flag is raised exactly when some date did not parse |
| `Cohorts.HasInvalidDates` | retencion_usuarios.py:35 | the warning condition of line 35; `Cohorts.InvalidDatesIffRowsDropped` states that it holds exactly when preparation drops a row |
| `Cohorts.CohortOf` | retencion_usuarios.py:38 | the cohort key of a date; its meaning is stated by `Cohorts.CohortKeySpec` |
| `Cohorts.KeepRow` | retencion_usuarios.py:37-38 | the record kept for a row whose date parsed; `Cohorts.PrepareKeepsParsedRows` states what it keeps |
| `Columns.ColumnsAfterPrepare` | retencion_usuarios.py:38 | after adding `Mes cohorte` the column list holds the old columns plus `Mes cohorte` and nothing else |
| `Cohorts.CohortKeySpec` | retencion_usuarios.py:38 | two dates get the same cohort key if and only if they share year and month; the key is the first of the month, not after the date, and keying a key returns it |
| `Cohorts.Prepare` | retencion_usuarios.py:34-38 | never more records than rows, and every record's cohort key is the key of its own parsed date |
| `Cohorts.PrepareKeepsParsedRows` | retencion_usuarios.py:34-37 | every row whose date parsed yields its record, and every record comes from such a row with the same user, date and cells |
| `Cohorts.PreparedCount` | retencion_usuarios.py:37 | the number of records equals the number of rows whose date parsed |
| `Cohorts.InvalidDatesIffRowsDropped` | retencion_usuarios.py:35-37 | the invalid-date warning is raised if and only if preparation drops a row |
| `Cohorts.PrepareAppend` | retencion_usuarios.py:34-38 | preparation works row by row and keeps row order: preparing two halves and joining them equals preparing the whole |
| `Columns.ActivityColumns` | retencion_usuarios.py:41 | the comprehension of line 41; its meaning is stated by `Columns.ActivityColumnsSpec` |
| `Columns.ActivityColumnsSpec` | retencion_usuarios.py:41 | the activity columns are exactly the columns other than the three key columns, each with its multiplicity, in sheet order, and distinct when the sheet's names are |
| `Columns.ActivityIgnoresCohortColumn` | retencion_usuarios.py:38-41 | selecting after `Mes cohorte` is added gives the same list as selecting on the uploaded columns |
| `Columns.PresentMonths` | retencion_usuarios.py:50 | the months present, in calendar order; the prefix described by `Columns.OrderedColumnsShape` |
| `Columns.OtherColumns` | retencion_usuarios.py:52 | the other activity columns, in their own order; the suffix described by `Columns.OrderedColumnsShape` |
| `Columns.OrderActivityColumns` | retencion_usuarios.py:53 | the ordered list; its shape is stated by `Columns.OrderedColumnsShape` and its permutation property by `Columns.OrderedIsPermutation` |
| `Columns.OrderedColumnsShape` | retencion_usuarios.py:48-53 | the ordered list is a prefix of the months present, each once and in calendar order, followed by the non-month activity columns with their multiplicities and in their original relative order |
| `Columns.OrderedIsPermutation` | retencion_usuarios.py:48-53 | for distinct column names the ordered list is a permutation of the activity columns: same multiset, same length, no duplicates |
| `Cohorts.Insert` | retencion_usuarios.py:58 | adding a key to an ascending list of distinct keys keeps it strictly ascending and holds exactly the old keys plus the new one |
| `Cohorts.CohortKeys` | retencion_usuarios.py:58 | the keys `groupby` visits are strictly ascending and are exactly the cohort keys that occur |
| `Cohorts.Group` | retencion_usuarios.py:58 | a cohort's group holds exactly the records with that key |
| `Cohorts.EachRecordInExactlyOneGroup` | retencion_usuarios.py:58 | each record is in the group of one visited key and of no other |
| `Cohorts.NoEmptyGroup` | retencion_usuarios.py:58 | every visited cohort has at least one record |
| `Cohorts.PartitionIsExact` | retencion_usuarios.py:58 | the group sizes over the visited keys add up to the number of records |
| `Cohorts.Users` | retencion_usuarios.py:59 | the distinct non-blank user ids of a group; `Cohorts.TotalOfAppendedRecord` states how a row changes it |
| `Cohorts.Total` | retencion_usuarios.py:59 | the distinct-user count; `Cohorts.TotalOfAppendedRecord` and `Cohorts.TotalAtMostRows` state its meaning |
| `Cohorts.TotalOfAppendedRecord` | retencion_usuarios.py:59 | one more row raises the distinct-user count by one exactly when it has an id not already counted |
| `Cohorts.TotalAtMostRows` | retencion_usuarios.py:59 | a group's distinct-user count never exceeds its number of rows |
| `Cohorts.IsActive` | retencion_usuarios.py:64 | the activity test of line 64; `Cohorts.ActiveOfAppendedRecord` states which cells pass it |
| `Cohorts.ActiveUsers` | retencion_usuarios.py:64 | the active users of a column are a subset of the group's users |
| `Cohorts.Active` | retencion_usuarios.py:64 | the active count never exceeds the group's user count |
| `Cohorts.ActiveOfAppendedRecord` | retencion_usuarios.py:64 | one more row raises the active count by one exactly when it has an id, a positive numeric cell in the column, and a user not already active; blank, text, zero and negative cells add nobody |
| `Cohorts.Retention` | retencion_usuarios.py:65 | the fraction lies in [0, 1], times the user count it equals the active count, and it is 0 when the group has no users |
| `RetentionMatrix.AggregateCohorts` | retencion_usuarios.py:56-66 | the dictionary's insertion order is the ascending cohort keys, its keys are exactly those, and each entry is the cohort's user count followed by one fraction per ordered column |
| `RetentionMatrix.Width` | retencion_usuarios.py:70 | the width pandas gives the frame is the length of the longest row, 0 for no rows |
| `RetentionMatrix.FromDict` | retencion_usuarios.py:70 | the DataFrame is built exactly when the dictionary is empty or its longest row has one entry per label; then the keys are the index in insertion order, every row has one cell per label, holding the row's entries and then NaN padding; otherwise the shape error |
| `RetentionMatrix.RaggedDictIsPadded` | retencion_usuarios.py:70 | a dictionary whose rows have lengths 2 and 1, with two labels, gives a 2×2 frame whose short row ends in NaN |
| `RetentionMatrix.AssembleCohortRows` | retencion_usuarios.py:69-70 | rows from the aggregation always fit the header, so assembly succeeds with no NaN anywhere, the matrix is rectangular, each row holds its cohort's user count and fractions, and every fraction in it lies in [0, 1] |
| `RetentionMatrix.CohortRowBounds` | retencion_usuarios.py:60-66 | in a cohort row every fraction lies in [0, 1], all are 0 when the cohort has no users, and the first entry is the user count, at most the group's row count |
| `Labels.OffsetLabel` | retencion_usuarios.py:69 | the label `Mes i`; `Labels.NatToString`, `Labels.ParseNatToString` and `Labels.HeaderSpec` state what it holds |
| `Labels.Header` | retencion_usuarios.py:69 | the column labels of line 69; their meaning is stated by `Labels.HeaderSpec` |
| `Labels.NatToString` | retencion_usuarios.py:69 | the decimal form of an offset is non-empty, all digits, with no leading zero |
| `Labels.ParseNatToString` | retencion_usuarios.py:69 | reading the decimal form of an offset gives the offset back |
| `Labels.NatToStringInjective` | retencion_usuarios.py:69 | different offsets get different decimal forms |
| `Labels.HeaderSpec` | retencion_usuarios.py:69 | the header has 1 + K labels: `Total usuarios`, then `Mes i` at position 1 + i, all distinct |

## Left out

- The Streamlit page (title, texts, uploader, `st.dataframe`, `st.error`, `st.warning`, `st.stop`) is presentation. The two stops are `Err` results, and the warning is a boolean result.
- Reading the Excel file with `pd.read_excel` is file I/O. The model starts from a table of column names and rows.
- How `pd.to_datetime` and `pd.to_numeric` parse text is not modelled: they are library code. Their outcomes are inputs: a parsed date or none, and a number, text or a blank cell. A date's day is not checked against the length of its month, and time of day is dropped, since the cohort key ignores both.
- The percent formatting at line 73 and the heatmap at lines 77-83 are rendering.
- Floating-point division is not modelled. Fractions are exact reals, and `Cohorts.Retention` states the exact quotient.
- User ids are strings. Pandas also allows numeric ids, and it treats the number 1 and the text "1" as different values; that is not modelled.
- `Columns.OrderedIsPermutation` needs distinct column names. Pandas renames duplicate headers when it reads a sheet. Without distinct names, a month header that occurs twice appears only once in the ordered list, and `Columns.OrderedColumnsShape` states what then holds.
- A NaN cell is `None`. Rows built by `RetentionMatrix.AggregateCohorts` never need it; it matters only to `RetentionMatrix.FromDict` on other dictionaries.
- The matrix's first column is stored as a real (`Total usuarios` as a number). The column's dtype in the DataFrame is not modelled.
