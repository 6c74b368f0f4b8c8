# File Converter and Cleaner — a Dafny model

The script `main.py` is a Streamlit page. It takes uploaded CSV or Excel
files and cleans each one. Cleaning can fill the missing cells of numeric
columns with the column mean, keeps the columns the user picks, and drops
the rows and then the columns that are entirely missing. The cleaned table
is offered for download as JSON, Excel or CSV.

This project models the deterministic core of that script and proves what it
does:

- `filenames.dfy` (module `FileNames`) covers how a file name is split on
  dots, for the extension (`split(".")[-1]`) and for the download's base name
  (`split('.')[0]`). It also states which extensions are accepted.
- `tables.dfy` (module `Tables`) covers the table as a value and what each
  cleaning step means: fill-missing by numeric mean, selection by label, and
  the two `dropna(how="all")` calls.
  - A cell is `Number`, `Text`, `Bool` or `Missing`.
  - A column counts as numeric when every present cell is a `Number`, which
    is what `select_dtypes(include=["number"])` keeps.
  - Arithmetic is exact (`real`).
- `frames.dfy` (module `Frames`) covers the pandas DataFrame as a class whose
  fields the script's steps change in place. Each method loops over rows and
  columns and is proved to produce the table the matching `Tables` function
  describes.
- `export.dfy` (module `Export`) covers the mapping from download format to
  suffix and MIME type, and the download file name.
- `pipeline.dfy` (module `Pipeline`) covers the loop over the uploaded files.
  A file with an unsupported extension is skipped and the loop goes on.
  Every other file gets its own DataFrame and goes through fill, selection
  and prune, and a download is offered. The user's choices arrive with each
  file: the fill checkbox, the multiselect and the format radio.
- `seqs.dfy` (module `Seqs`) holds shared vocabulary: `Option`, `Result`, the
  positions a mask selects, and picking elements by position.

Three readings of the code are worth stating:

- **Download base name.** The download is named after the text before the
  *first* dot, not the name minus its last extension: `sales.2024.csv`
  downloads as `sales.csv` (`Export.FirstDotExample`).
- **Fill before prune.** main.py:43 runs before main.py:60. For the upload
  `name,age / Alice,30 / Bob, / ,` with fill on, the last row already holds
  age 30 when rows are pruned, so it is kept and three rows come out
  (`Pipeline.FillBeforePrune`).
- **Pruning edge cases.** `dropna(how="all")` is modelled as pandas computes
  it, by "some cell is present":
  - A row with no cells is dropped.
  - A table without rows loses all its columns in the column prune.

## Model

| member | source | states |
|---|---|---|
| `FileNames.Split` | main.py:25 | Python's `str.split`: at least one piece, and no piece holds the separator; specified further by JoinSplit |
| `FileNames.Extension` | main.py:25 | `split(".")[-1]`; specified by ExtensionIsAfterLastDot and ExtensionUnique |
| `FileNames.BaseName` | main.py:83 | `split('.')[0]`; specified by BaseNameIsBeforeFirstDot and BaseNameUnique |
| `FileNames.IsSupported` | main.py:26 | the exact, case-sensitive test against `csv` and `xlsx`; specified in terms of the name by SupportedNames |
| `FileNames.JoinSplit` | main.py:25 | splitting a name on a separator and joining the pieces again gives the name back |
| `FileNames.ExtensionIsAfterLastDot` | main.py:25 | the extension has no dot and is a suffix of the name; with a dot in the name it follows a dot, without one it is the whole name |
| `FileNames.ExtensionUnique` | main.py:25 | any dot-free suffix that follows a dot, or is the whole name, is the extension |
| `FileNames.BaseNameIsBeforeFirstDot` | main.py:83 | the base name has no dot and is a prefix of the name; with a dot in the name a dot follows it, without one it is the whole name |
| `FileNames.BaseNameUnique` | main.py:83 | any dot-free prefix followed by a dot, or that is the whole name, is the base name |
| `FileNames.SupportedNames` | main.py:25-26 | the extension is accepted exactly when the name is `csv` or `xlsx`, or ends in `.csv` or `.xlsx`, with exact case |
| `Export.Suffix` | main.py:83-98 | the suffix of each format (`json`, `xlsx`, `csv`); specified by DownloadTable |
| `Export.Mime` | main.py:84-99 | the MIME type of each format; specified by DownloadTable |
| `Export.DownloadFor` | main.py:79-100 | read back by the same splitting, the download name's extension is the format's suffix and its base name is the upload's; the MIME type is the format's |
| `Export.DownloadTable` | main.py:79-100 | JSON gives `<base>.json` with `application/json`, Excel gives `<base>.xlsx` with the spreadsheetml MIME type, CSV gives `<base>.csv` with `text/csv` |
| `Export.DownloadReadBack` | main.py:79-100 | uploading a download again passes the extension test for Excel and CSV and fails it for JSON |
| `Export.FirstDotExample` | main.py:98 | `sales.2024.csv` has extension `csv` and base name `sales`, and its CSV download is `sales.csv` |
| `Tables.FillNa` | main.py:43 | `fillna` with one value per column keeps the labels, the row count and the rectangular shape; cell by cell it is specified by FillNaColumn |
| `Tables.FillMissing` | main.py:43 | fillna by the numeric column means keeps the labels, the row count and the shape; specified by FillMissingCells, FillMissingColumn and FillMissingIdempotent |
| `Tables.PresentCountPositive` | main.py:43 | a column's count of present cells is positive exactly when it has a present cell |
| `Tables.MeanBetween` | main.py:43 | the fill value of a numeric column lies between any lower and upper bound on its present values |
| `Tables.FillKeepsMean` | main.py:43 | filling a numeric column with its mean leaves it numeric, with no missing cell and the same mean |
| `Tables.FillNaColumn` | main.py:43 | column j after `fillna` is column j with its missing cells given column j's fill value |
| `Tables.FillMissingCells` | main.py:43 | the shape is unchanged; present cells are kept; a missing cell of a numeric column with a present value becomes that column's mean; every other missing cell stays missing |
| `Tables.FillMissingColumn` | main.py:43 | a non-numeric column, and a numeric column with no present value, comes out unchanged; a numeric column with a present value comes out numeric, full and with the same mean |
| `Tables.FillMissingIdempotent` | main.py:43 | filling twice gives the same table as filling once |
| `Tables.IndexOf` | main.py:54 | the position found holds the label and no earlier position does |
| `Tables.Unknown` | main.py:54 | the labels listed are exactly the selected labels that are not columns, and the list is empty exactly when every selected label is a column |
| `Tables.Select` | main.py:54 | an error is never empty; a success is rectangular, has exactly the selected labels and the same row count; specified fully by SelectSpec and SelectAll |
| `Tables.SelectSpec` | main.py:54 | selection fails exactly when some selected label is not a column, and the error names exactly those labels; otherwise the result has the selected labels in selection order and the same rows in the same order, each holding the original row's cell under each selected label |
| `Tables.SelectAll` | main.py:47-54 | with distinct labels, the default selection (every column, in order) returns the table unchanged |
| `Tables.DropEmptyRows` | main.py:60 | keeps the labels, never adds rows and keeps the table rectangular; specified by DropEmptyRowsSpec and DropEmptyRowsNoop |
| `Tables.DropEmptyColumns` | main.py:61 | keeps the row count, never adds columns and keeps the table rectangular; specified by DropEmptyColumnsSpec and DropEmptyColumnsNoop |
| `Tables.Prune` | main.py:60-61 | both prunes in order; never adds rows or columns; specified by PruneLeavesNoEmpty and PruneIdempotent |
| `Tables.DropEmptyRowsSpec` | main.py:60 | row pruning keeps, in their order, exactly the rows with a present cell, leaves the columns alone, never adds rows and leaves no all-missing row |
| `Tables.DropEmptyColumnsSpec` | main.py:61 | column pruning keeps, in their order, exactly the columns with a present cell, in the labels and in every row; the row count is unchanged and no all-missing column is left |
| `Tables.PruneLeavesNoEmpty` | main.py:60-61 | after both prunes no row and no column is entirely missing |
| `Tables.DropEmptyRowsNoop` | main.py:60 | row pruning leaves a table without all-missing rows unchanged |
| `Tables.DropEmptyColumnsNoop` | main.py:61 | column pruning leaves a table without all-missing columns unchanged |
| `Tables.PruneIdempotent` | main.py:60-61 | running both prunes again changes nothing |
| `Frames.DataFrame.constructor` | main.py:30 | the new frame holds the table that was read |
| `Frames.DataFrame.ColumnMean` | main.py:43 | one pass over column j gives its mean when every present cell is a number and at least one is present, and nothing otherwise |
| `Frames.DataFrame.FillMissing` | main.py:43 | after the in-place fill the frame holds `Tables.FillMissing` of the table it held before |
| `Frames.DataFrame.Find` | main.py:54 | gives nothing exactly when the label is absent, and otherwise its first position |
| `Frames.DataFrame.Project` | main.py:54 | the frame keeps the columns at the given positions, in that order, in the labels and in every row |
| `Frames.DataFrame.Resolve` | main.py:54 | one pass over the selection gives exactly the labels that are not columns and, when there are none, the position of every selected label |
| `Frames.DataFrame.SelectColumns` | main.py:54 | on unknown labels the frame is unchanged and exactly those labels are returned; otherwise the frame holds the selection and nothing is returned |
| `Frames.DataFrame.ColumnHasValue` | main.py:61 | tells whether column j has a present cell |
| `Frames.DataFrame.DropEmptyRows` | main.py:60 | after the in-place row prune the frame holds `Tables.DropEmptyRows` of the table it held before |
| `Frames.DataFrame.DropEmptyColumns` | main.py:61 | after the in-place column prune the frame holds `Tables.DropEmptyColumns` of the table it held before |
| `Pipeline.Clean` | main.py:42-61 | fill if ticked, select, then prune; specified by CleanSpec, DefaultSelection and FillBeforePrune |
| `Pipeline.ProcessUpload` | main.py:25-100 | the outcome for one file; specified by SkippedExactly and CleanedDownload |
| `Pipeline.ProcessFiles` | main.py:24-28 | one outcome per upload, in upload order, each the outcome of that upload alone, so a skipped file does not affect the files after it |
| `Pipeline.SkippedExactly` | main.py:25-28 | a file is skipped exactly when its name does not end in `.csv` or `.xlsx` (and is not `csv` or `xlsx`); the error names the extension, the dot-free suffix that follows the last dot or is the whole name |
| `Pipeline.PruneLabels` | main.py:60-61 | pruning only removes labels and never adds rows |
| `Pipeline.CleanSpec` | main.py:42-61 | cleaning fails exactly when a picked label is not a column, naming exactly those labels; otherwise the result keeps only labels that were picked and present, has at most the upload's rows, has no all-missing row or column, and is a fixpoint of pruning |
| `Pipeline.DefaultSelection` | main.py:47-54 | with the default selection the cleaned table is the pruned, and optionally filled, upload |
| `Pipeline.CleanedDownload` | main.py:79-100 | a cleaned file came from a supported upload and is offered as `<base>.<suffix>` with the format's MIME type |
| `Pipeline.FillBeforePrune` | main.py:42-61 | on the upload `name,age / Alice,30 / Bob, / ,` with fill on, every row survives and Bob and the last row get age 30 |

## Left out

- The Streamlit interface is not modelled: page setup, uploader, checkboxes, multiselect, radio, download buttons, messages and `st.stop` (main.py:1-21, 32, 36, 44-45, 55, 62-65, 72-78). The choices these widgets return become fields of `Pipeline.Upload`.
- Reading files with `pd.read_csv` / `pd.read_excel` (main.py:30) is not modelled. Each upload carries the table already read, and the model assumes it is rectangular.
- `to_json`, `to_excel`, `to_csv` and `BytesIO` (main.py:67-70, 94) are not modelled. A download is its file name and MIME type only; its bytes are not modelled.
- The bar chart (main.py:56-58) is display only.
- The file size in KB, the upper-cased type and the row and column counts (main.py:34-39) are display only. The counts are just the table's dimensions.
- Floating-point rounding is not modelled: the column mean is an exact `real` quotient.
- A NaN value inside a number column is not modelled as a number. It is `Missing`.
- The indentation of main.py:47-104 is not reproduced. Those lines sit outside the `for` loop of main.py:24-45, so only the last table read would be selected, pruned and exported (under the last file's name). The model runs these steps once per supported file.
- The final `else` branch (main.py:101-104) is not modelled. The radio always returns one of its three options, so the branch cannot run.
- Pipeline.ProcessFiles: a selection naming an unknown label is an `UnknownColumns` outcome for that file only. In the script the multiselect offers only existing labels, and a `KeyError` would end the whole run instead.
- Duplicate column labels are not modelled faithfully. `read_csv` and `read_excel` never produce them, so the model matches pandas only for distinct labels, which `Tables.SelectAll` and `Pipeline.DefaultSelection` require. The other operations accept any labels, but with duplicates `Tables.Select` takes the first column of each label, whereas `df[[...]]` returns every column with that label.
