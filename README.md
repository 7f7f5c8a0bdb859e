# Reconciliation engine of the two-upload Flask app

The application takes two uploaded tables (Excel or CSV), joins them on the
column `ID`, and adds a `Status` column that says, row by row, whether the
two `Amount` values agree. It then offers the result as a spreadsheet. This
project models the three parts of `app.py` that make decisions:

- **Upload dispatch** (`read_file`, module `Uploads`). The lower-cased file
  name chooses the spreadsheet reader for `.xlsx` and `.xls`, the CSV reader
  for `.csv`, and raises "Unsupported file type" for anything else. The two
  pandas readers are parameters: opaque functions of the uploaded bytes that
  return a table or raise.
- **Join and compare** (modules `Merge` and `Status`). This is the outer
  merge on `ID` with suffixes `_A`/`_B`, then the `Status` column. A cell is
  `Text`, `Num` or `Null` (pandas' NaN). A row maps column labels to cells.
  Python's `str` on a cell is the parameter `toText`, and `PyStr` is a
  concrete instance for integers, strings and NaN. The join is defined for
  all inputs: duplicate keys pair every matching row, as pandas does. The
  "one row per key" theorem assumes unique keys in each table.
- **Request handling** (`home`, module `Handler`). The checks run in this
  order: missing upload, then reading the first file, then the second, then
  an empty table, then merge and compare. A `KeyError` becomes the key error.
  Any other exception becomes the general error carrying its text. The result
  is `Report(table, file)` or `Failed(kind)`. Writing the spreadsheet
  (`to_excel`) runs inside the same `try`. It is the parameter `write`,
  which gives the bytes or raises; a raise goes to the general error like
  any other exception.

Where the intended design and the code differ, the model follows the code:

- An unsupported extension and a decoding failure are not separate kinds. Both
  reach the general error with the exception's text.
- A missing `ID` column and a missing `Amount` column are not separate kinds.
  Both are the same key error.
- The empty-table error does not say which side was empty.
- Duplicate key values are not rejected. The merge pairs every matching row.
- An unmatched key is not always a Mismatch. Its Status is Match when the
  present side's Amount has the same text as a missing cell (`"nan"`), for
  example when that Amount is itself missing. `Status.UnmatchedKeyVerdict`
  and `Status.MissingAmountVerdicts` state this.
- The Status labels are the source's `"✅ Match"` and `"❌ Mismatch"`.

## Model

| member | source | states |
|---|---|---|
| `Uploads.SelectReader` | app.py:20-27 | the dispatch fails only with the "Unsupported file type" error; an accepted name has at least four characters and ends, lower-cased, in `.csv` when the CSV reader is chosen and in `.xls` or `.xlsx` when the spreadsheet reader is |
| `Uploads.ReadFile` | app.py:18-27 | an unsupported name gives the "Unsupported file type" error; a spreadsheet name runs the Excel reader and a CSV name the CSV reader on the upload's bytes |
| `Uploads.EndsWithLower` | app.py:20-24 | `lower().endswith(s)` holds exactly when the name's last characters, lower-cased one by one, spell `s` |
| `Uploads.SuffixesExclusive` | app.py:22-25 | no name ends, ignoring case, with both `.csv` and `.xls`/`.xlsx`, so the two branches never both apply |
| `Uploads.SelectReaderSpec` | app.py:20-27 | a name selects the Excel reader iff it ends with `.xlsx` or `.xls` ignoring case, the CSV reader iff it ends with `.csv`, and fails with "Unsupported file type" iff it ends with none of them |
| `Uploads.SelectReaderIgnoresCase` | app.py:20 | two names that differ only in the case of letters select the same reader |
| `Uploads.UnsupportedIgnoresContent` | app.py:26-27 | an unsupported name fails the same way whatever the bytes and whatever the readers |
| `Uploads.SpreadsheetNameExample` | app.py:22-23 | `Ledger.XLSX` and `ledger.Xls` select the spreadsheet reader |
| `Uploads.CsvNameExample` | app.py:24-25 | `bank.CsV` selects the CSV reader |
| `Uploads.UnsupportedNameExample` | app.py:26-27 | `data.txt` and a bare `csv` are unsupported |
| `Merge.Layout` | app.py:54 | the merged labels start with the left columns in their order, the key fed by the join key and every other left column by the left table |
| `Merge.RightOutSpec` | app.py:54 | the right side contributes each non-key column once, with `_B` exactly when the left side also has it |
| `Merge.LayoutSpec` | app.py:54 | the merged labels: the key unsuffixed, a non-key column present on both sides as `_A` (left) and `_B` (right), other columns unchanged, and nothing else |
| `Merge.Combine` | app.py:54 | a merged row holds exactly the merged labels, each filled from its side's row, or missing when that side has no row for the key |
| `Merge.OuterJoin` | app.py:54 | the outer join keeps every left row: it has at least as many rows as the left table |
| `Merge.OuterJoinLabels` | app.py:54 | every row of the outer join holds exactly the merged labels |
| `Merge.MergeFrames` | app.py:53-54 | a KeyError exactly when either table lacks `ID`; on success the labels are the layout's, distinct with an `ID` key column, the result is a well-formed table (distinct labels, each row holding exactly those labels), and there are at least as many rows as in the left table |
| `Merge.LeftJoinCoversLeft` | app.py:54 | every left row yields at least one merged row |
| `Merge.LeftJoinUnique` | app.py:54 | with unique right keys, each left row yields exactly one row, combined with the right row that has its key, if there is one |
| `Merge.RightOnlyKeys` | app.py:54 | the right-only rows carry exactly the right keys that the left table lacks, in order |
| `Merge.RightOnlyRows` | app.py:54 | each right-only row is the right row with its key, combined with a missing left side |
| `Merge.OuterJoinOneRowPerKey` | app.py:54 | with unique keys per table, the outer join has one row per key present in either table, with no key dropped or repeated, and each row combines the left and the right row that have its key |
| `Status.Classify` | app.py:56 | a row is a Match exactly when `str` gives the same text for its `Amount_A` and `Amount_B` cells |
| `Status.AddStatus` | app.py:55-58 | a KeyError exactly when `Amount_A` or `Amount_B` is not a column; otherwise every row gets a Status cell that is one of the two labels, Match exactly when the two amounts have equal text, and no other cell changes; a well-formed table stays well-formed |
| `Status.Reconcile` | app.py:54-58 | a missing `ID` is the merge's KeyError; a report keeps every left row, is a well-formed table with a `Status` column, and labels every row with one of the two verdicts |
| `Status.ReconcileRows` | app.py:55-58 | after a successful merge with both Amount columns, the report labels each merged row in place and in order: Match exactly when its two amounts have equal text |
| `Status.AmountColumns` | app.py:54 | when both tables have `Amount`, the merged `Amount_A` and `Amount_B` read the left and the right `Amount` |
| `Status.MergedHasAmounts` | app.py:54-56 | when both tables have `Amount`, a successful merge has both columns the Status lambda reads |
| `Status.JoinedAmounts` | app.py:54-56 | with unique keys, each joined row's `Amount_A`/`Amount_B` are the two sides' `Amount` for its key, missing for a side that lacks it |
| `Status.ReconcileOneVerdictPerKey` | app.py:54-58 | with unique keys and `Amount` on both sides, the report has one row per key of either table, and the row for key k is Match iff the left and right Amount for k have equal text |
| `Status.ReconcileMatchIff` | app.py:54-58 | with unique keys and `Amount` on both sides, every report row's Status is the Match label exactly when the left and right Amount for its key have equal text |
| `Status.UnmatchedKeyVerdict` | app.py:54-56 | a key only one table has is a Mismatch exactly when its Amount's text differs from the text of a missing cell |
| `Status.NumberMatchesItsText` | app.py:56 | the number 5 and the string "5" match; 5 and 6 do not; -12 and "-12" match |
| `Status.MissingAmountVerdicts` | app.py:56 | a present amount against a missing one is a Mismatch; two missing amounts are a Match |
| `Status.ExampleLayout` | app.py:54 | two tables with columns `ID`, `Amount` merge to `ID`, `Amount_A`, `Amount_B` |
| `Status.DisjointKeysJoin` | app.py:54 | a left row with ID 1 and a right row with ID 2 join to the left-only row, then the right-only row |
| `Status.DisjointKeysMerge` | app.py:53-54 | two one-row tables with columns `ID`, `Amount` and keys 1 and 2 merge to columns `ID`, `Amount_A`, `Amount_B` and two rows: ID 1 with the left Amount and a missing right one, then ID 2 with a missing left Amount and the right one |
| `Status.DisjointKeysExample` | app.py:53-58 | one-row tables with amount 5 under ID 1 on the left and amount 5 under ID 2 on the right give two rows, keys 1 and 2, both Mismatch |
| `Status.SameKeyJoin` | app.py:54 | a left row and a right row with ID 1 join to one row combining both |
| `Status.SameKeyMerge` | app.py:53-54 | two one-row tables with columns `ID`, `Amount` and the same key merge to columns `ID`, `Amount_A`, `Amount_B` and one row holding both sides' Amount |
| `Status.SameKeyExample` | app.py:53-58 | the text "5" and the number 5 under the same ID in one-row tables give one row, a Match |
| `Frames.IsEmpty` | app.py:49 | `DataFrame.empty`: a table is empty exactly when it holds no cell, that is, it has no rows or no columns |
| `Handler.Uploaded` | app.py:34-37 | a field counts as uploaded only when it holds a file, and exactly when that file's name is not empty |
| `Handler.KindOf` | app.py:72-75 | a KeyError maps to the key error and any other exception to the general error carrying its text; never to the missing-file or empty-file error |
| `Handler.Deliver` | app.py:61-75 | a report is sent exactly when writing the spreadsheet succeeds, carrying the table and the bytes written; an exception from the writer becomes the key or general error |
| `Handler.Home` | app.py:32-76 | a missing upload is reported before anything is read; a failure reading the first file, then the second, is reported in that order; an empty table before any merge; then the merge and compare outcome, and only a successful one is written; a report only when every step, writing included, succeeded |
| `Handler.HomeDelivers` | app.py:32-75 | once both uploads are read into non-empty tables that reconcile, the outcome is the result of writing that report |
| `Handler.UnsupportedUpload` | app.py:74-75 | an uploaded first file whose name has none of the three suffixes gives the general error "Unsupported file type", whatever the readers |
| `Handler.MissingKeyIsKeyError` | app.py:72-73 | once both tables are read and non-empty, a table without `ID` gives the key error |
| `Handler.AmountANamesOnly` | app.py:54-56 | `Amount_A` is a merged label only if both tables have `Amount` or one has a column called `Amount_A` |
| `Handler.ReconcileMissingAmount` | app.py:54-56 | with `Amount` absent from a table and no column called `Amount_A`, merge and compare fail with a KeyError, or with the duplicate-label error when the merge fails first |
| `Handler.MissingAmountIsKeyError` | app.py:55-73 | when both uploads are read into non-empty tables and `Amount` is absent from one of them (and no column is called `Amount_A`), the outcome is the key error, or the general error when the merge's labels collide first; never a report |
| `Handler.ReportOneVerdictPerKey` | app.py:53-58 | when both uploads are read into non-empty tables with `ID`, `Amount`, unique keys and colliding labels ruled out, they reconcile and the outcome is writing that report (a report exactly when the write succeeds); the report has one row per key of either upload, and each Status is Match iff the two sides' Amount for that key have equal text |

## Left out

- Flask routing, the GET branch, `request.files`, `flash`, `redirect`, `render_template`, `send_file` and the 404/500 handlers: HTTP and page plumbing. The handler's result is an `Outcome` instead of a redirect or a download.
- `time.sleep(1.5)`: a delay with no effect on the result.
- `pd.read_excel` and `pd.read_csv` decoding: library I/O. Both are the parameter `Readers`, opaque functions that may raise.
- The spreadsheet encoding done by `to_excel` into a `BytesIO`, and the rewind: serialization. It is the parameter `write`, an opaque function of the report that gives bytes or raises.
- `Merge.OuterJoin`: row order is left rows in order, then right-only rows. pandas sorts the keys of an outer join. Key membership, row contents and uniqueness are modelled; order is not.
- `Status.PyStr`: integers only. pandas turns an integer column into floats when the outer join introduces NaN, so `str` can give `"5.0"`. Floats are not modelled; the lemmas about the report hold for any `toText`.
- `Merge.MergeFrames`: merging an integer key column with a text key column raises a ValueError in pandas. The model compares keys as cells instead.
- `Merge.MergeFrames`: rejects every duplicate label with one fixed error. pandas is less strict and its behaviour depends on the version. pandas 1.x only warns and keeps the duplicates. pandas 2.x raises only when the suffixes create a duplicate within one side's labels. For example, left `ID, Amount, Amount_B` and right `ID, Amount` give two `Amount_B` columns in pandas, and a report. The model's rows map each label to one cell, so it cannot hold such a table. pandas' message also lists the duplicates.
- `Uploads.LowerChar`: folds only `A`-`Z`. Python's `lower()` folds all of Unicode. The suffix letters `x`, `l`, `s`, `c`, `v` are lower-case forms of no character other than their ASCII upper-case letters, so the dispatch outcome is the same.
- `Handler.Uploaded`: an upload counts as absent when its file name is empty. This follows werkzeug's `FileStorage`, which is false in that case. werkzeug is not part of this model.
- The secret key, the emoji error messages and `app.run`: configuration and presentation text.
