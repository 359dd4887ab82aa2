# Excel reconciliation service: a Dafny model

The service takes two spreadsheets over HTTP: a reference table A
(`excel1`) and a target table B (`excel2`). It cleans both, lower-cases
their headers and checks that the columns "c/kg" and "rate" exist. It then
left-joins B onto A on (`item`, `description`, `materials`) and fills B's
missing "c/kg" and "rate" values from the matching A row. Rows whose item
is a pipe get an empty rate. Only B's columns are kept, and the result is
saved as B's file name without its extension plus `_filtered.xlsx`.

The model has six modules:

- `Text` (text.dfy): ASCII lower-casing, prefix tests, `str.rfind` and the
  POSIX `os.path.splitext` rule.
- `Tables` (tables.dfy): cells (empty, text or number), tables whose rows
  are as wide as the header, pandas `combine_first` on one cell, column
  lookup and projection.
- `Cleaning` (cleaning.dfy): `clean_dataframe`, which drops empty rows and
  then the "Unnamed" columns.
- `Reconciliation` (reconcile.dfy): header lower-casing, the
  required-column check, the left join, the fills, the pipe rule and the
  projection, as functions, with their row-by-row specification.
- `Upload` (upload.dfy): the `/upload` handler as a function `Process`
  from a request to an outcome (an error with a status and message, or the
  file name, download URL and table). Each upload arrives already parsed,
  or with the parser's error message.
- `Handler` (handler.dfy): the handler as it runs, step by step. It has
  early returns, the loop over the required columns, and the merged
  frame's "c/kg" and "rate" columns updated in place in arrays by the
  column assignment and the two `.loc` assignments. It is proved to give exactly `Process`'s
  outcome.

A row of the merged frame is modelled as B's row paired with the matched A
row (`Reconciliation.Joined`). This stands for the literal `c/kg_filled`
and `rate_filled` columns that `merge` adds. Projecting back onto B's
columns drops the A part.

Cleaning is not idempotent. A row whose only value sits in an "Unnamed"
column survives the first pass, because rows are judged before columns
are dropped. It is then empty and goes on a second pass
(`Cleaning.CleanNotIdempotent`). So cleaning the produced file again keeps
every column but may drop rows. It changes nothing when the prepared B
table has no empty row (`Upload.RecleanFixpoint`). In general, then,
cleaning the output again is not the identity.

## Model

| member | source | states |
|---|---|---|
| Text.Lower | app.py:56-57 | lower-casing keeps the length and maps each character to its ASCII lower case |
| Text.LowerIdempotent | app.py:56-57 | a lower-cased string has no upper-case ASCII letter, and lower-casing it again changes nothing |
| Text.LastIndex | app.py:33 | the result is -1 or a position of the character, with no occurrence after it |
| Text.SplitExt | app.py:33 | root + extension is the path; a non-empty extension starts with its only dot and has no separator; it is split off only when the last component has a non-dot before the dot; with no extension, no dot in the last component has a non-dot before it |
| Text.SplitExtStem | app.py:33 | for a plain name stem.ext (ext without dots, stem with a non-dot) the root is the stem |
| Tables.CombineFirst | app.py:68 | a present own cell is kept, a missing one is replaced by the other cell; the result is missing exactly when both cells are |
| Tables.IndexOf | app.py:61 | None exactly when the name is absent; otherwise the first position holding it |
| Tables.Select | app.py:18 | the projection has one element per chosen position, each the element at that position |
| Cleaning.AllMissing | app.py:17 | no contract of its own; the `how="all"` test: every cell of the row is missing |
| Cleaning.DropEmptyRows | app.py:17 | the surviving rows are exactly the input rows that are not all-missing |
| Cleaning.DropEmptyRowsAppend | app.py:17 | dropping rows distributes over concatenation, so the survivors keep their order |
| Cleaning.DropEmptyRowsSingle | app.py:17 | a single row is kept exactly when it is not all-missing |
| Cleaning.DropEmptyRowsKeepsFull | app.py:17 | a table without empty rows loses none |
| Cleaning.IsUnnamed | app.py:18 | no contract of its own; the `^Unnamed` pattern, a case-sensitive prefix test; its instances by `Cleaning.HeaderExamples` |
| Cleaning.NamedOnly | app.py:18 | every surviving header is an input header not starting with "Unnamed" |
| Cleaning.KeptColumns | app.py:18 | the kept positions are in bounds, strictly increasing, and are exactly the columns whose header does not start with "Unnamed" (case-sensitive) |
| Cleaning.KeptColumnsNames | app.py:18 | the headers at the kept positions are the non-placeholder headers in order |
| Cleaning.KeptColumnsAll | app.py:18 | with no placeholder header every column is kept |
| Cleaning.CleanSpec | app.py:15-19 | after cleaning no header starts with "Unnamed"; the rest keep their order; each row is a non-empty input row (judged on all columns) restricted to the kept columns, in order |
| Cleaning.DropUnnamedColumns | app.py:18 | no contract of its own; specified through `KeptColumns` and `Cleaning.CleanSpec` |
| Cleaning.Clean | app.py:15-19 | no contract of its own; specified by `Cleaning.CleanSpec` |
| Cleaning.CleanNamedTable | app.py:15-19 | a table with only real headers loses only its empty rows |
| Cleaning.HeaderExamples | app.py:18 | "qty" is not a placeholder header and "Unnamed: 1" is |
| Cleaning.NamedThenUnnamedKept | app.py:18 | from a real header followed by a placeholder only the first column is kept, and a lone real header is kept |
| Cleaning.CleanOneFullRow | app.py:15-19 | a table with one non-empty row only loses its placeholder columns |
| Cleaning.CleanKeepsHiddenValueRow | app.py:15-19 | when only the first column is kept, a row whose only value is in the second column survives cleaning, emptied |
| Cleaning.CleanDropsEmptiedRow | app.py:17-18 | when only the first column is kept, a single emptied row is dropped by cleaning |
| Cleaning.CleanNotIdempotent | app.py:15-19 | on ["qty", "Unnamed: 1"] with one row holding only a value under "Unnamed: 1", cleaning twice differs from cleaning once |
| Reconciliation.LowerHeader | app.py:56-57 | rows are unchanged and every header is lower-cased in place |
| Reconciliation.FirstMissing | app.py:60-62 | None exactly when every column is in both headers; otherwise the first column, in order, missing from one of them |
| Reconciliation.CheckRequired | app.py:60-62 | the loop with early return names the first of "c/kg", "rate" missing from either table |
| Reconciliation.ReadyIffChecksPass | app.py:60-65 | both tables hold all five columns the merge reads exactly when the required check and the join-key lookup both pass |
| Reconciliation.Col | app.py:65 | the position holds the named column |
| Reconciliation.KeyColumns | app.py:64-65 | three positions, the k-th holding the k-th of item, description, materials |
| Reconciliation.KeyOf | app.py:64-65 | no contract of its own; the row's cells in the item, description and materials columns; compared by `Reconciliation.Matches` |
| Reconciliation.Matches | app.py:65 | the matches are exactly A's rows whose key equals the given key |
| Reconciliation.MatchesAppend | app.py:65 | matches come in A's order |
| Reconciliation.MatchesNone | app.py:65 | a key no A row carries has no match |
| Reconciliation.MatchesUnique | app.py:65 | with unique keys in A a key has at most one match |
| Reconciliation.MatchOf | app.py:65 | a match found is an A row with the key; none is found exactly when no A row has it |
| Reconciliation.MatchOfFirst | app.py:65 | a match found is the first A row, in A's order, with the key |
| Reconciliation.Join | app.py:65 | the merge has at least B's row count; each merged row's B part is a B row and its A part an A row with the same key; a row left unjoined has a key no A row carries; order and per-row shape by `JoinAppend` and `JoinRowShape` |
| Reconciliation.JoinAppend | app.py:65 | the left join works B row by B row, keeping B's order |
| Reconciliation.JoinRow | app.py:65 | no contract of its own; specified by `Reconciliation.JoinRowShape` and `Reconciliation.JoinRowUnique` |
| Reconciliation.JoinRowShape | app.py:65 | one B row yields one merged row per match in A's order, or one row with nothing joined |
| Reconciliation.JoinRowUnique | app.py:65 | with unique keys in A a B row yields exactly one merged row, paired with its match or none |
| Reconciliation.JoinUniqueKeys | app.py:65 | with unique keys in A the merge has exactly B's rows, in order, each paired with its match |
| Reconciliation.IsPipe | app.py:69 | an item is a pipe exactly when it is a four-letter text cell spelling "pipe" in any mix of cases |
| Reconciliation.PipeExamples | app.py:69 | "Pipe", "PIPE" and "pipe" are pipes; "pipes", " pipe", a missing cell and a number are not |
| Reconciliation.LayoutOf | app.py:64-70 | B's positions hold "item", "c/kg" and "rate" ("c/kg" and "rate" distinct), A's hold "c/kg" and "rate", and both key lists hold item, description, materials in that order |
| Reconciliation.Filled | app.py:68-70 | no contract of its own; the `_filled` column of a merged row: A's cell, or missing without a match; used by `NewCkg` and `NewRate` |
| Reconciliation.NewCkg | app.py:68 | a present B "c/kg" is kept, a missing one takes A's "c/kg" (missing without a match); the result is missing exactly when both are |
| Reconciliation.NewRate | app.py:69-70 | a pipe row's rate is ""; otherwise a present B rate is kept and a missing one takes A's rate (missing without a match); the rate is missing exactly when the row is no pipe and both rates are missing |
| Reconciliation.Place | app.py:73 | the placed row is as wide as the B row, holds the new "c/kg" and rate at their positions, and equals the B row elsewhere; values by `Reconciliation.PlaceReconciled` |
| Reconciliation.FinalRows | app.py:68-73 | one output row per merged row, each as wide as its B row; the cell values by `Reconciliation.ReconcileSpec` |
| Reconciliation.Reconcile | app.py:73 | the output has B's columns |
| Reconciliation.ReconcileRows | app.py:65-73 | the reconciled table is B's header over the filled and projected merged rows, each as wide as B's header |
| Reconciliation.PlaceReconciled | app.py:68-73 | one filled and projected merged row satisfies the row rule |
| Reconciliation.ReconcileSpec | app.py:65-73 | every output row is its merged row's B part with "c/kg" from B else A else missing, rate "" for pipes and otherwise from B else A else missing, all other cells B's |
| Reconciliation.ReconcileUniqueKeys | app.py:65-73 | with unique keys in A the output has B's header and exactly B's rows in order, row i reconciled against its match |
| Upload.MissingUploadsMessage | app.py:25 | the constant error text for a missing upload, returned by `Upload.ProcessOutcomes`'s first case |
| Upload.ReadErrorMessage | app.py:53 | no contract of its own; the read-error text carrying the parser's reason, by `Upload.ProcessOutcomes` |
| Upload.MissingColumnMessage | app.py:62 | no contract of its own; the missing-column text naming the column, by `Upload.ProcessOutcomes` |
| Upload.InternalErrorMessage | app.py:85 | no contract of its own; the generic 500 text naming the absent join key, by `Upload.Reconciled` |
| Upload.OutputName | app.py:76 | the name is the `Text.SplitExt` root of the file name followed by "_filtered.xlsx"; that root is a prefix of the file name, followed by a dot when it is shorter |
| Upload.Prepared | app.py:47-57 | no contract of its own; specified by `Upload.PreparedHeader` and `Cleaning.CleanSpec` |
| Upload.Reconciled | app.py:60-82 | an error is 400 or 500; on success the name is `OutputName` of the file name and the URL "/download/" plus that name |
| Upload.Process | app.py:22-85 | an error is 400 or 500; on success excel2 was sent, the name is `OutputName` of its file name and the URL "/download/" plus that name; the rest by `Upload.ProcessOutcomes` and `Upload.ProcessSuccess` |
| Upload.ProcessOutcomes | app.py:24-65 | a missing upload gives 400; then an unreadable excel1, then excel2, gives 500; then the first missing "c/kg"/"rate" gives 400; then the first missing join-key column gives the generic 500; success exactly when all checks pass |
| Upload.MissingColumnOrder | app.py:60-62 | "c/kg" is named whenever it is missing, "rate" only when "c/kg" is present in both |
| Upload.ProcessAfterRead | app.py:47-57 | once both files are read the outcome is decided on the cleaned, lower-cased tables |
| Upload.ReconciledSuccess | app.py:73-82 | when both tables are ready the outcome carries the output name, its download URL and the reconciled table |
| Upload.ProcessSuccess | app.py:76-82 | an accepted request yields B's name with its extension stripped plus "_filtered.xlsx", the URL "/download/" plus that name, and B reconciled against A |
| Upload.PreparedHeader | app.py:56-57 | a prepared table's headers are the non-placeholder headers, lower-cased, in order, none a placeholder |
| Upload.RecleanOutput | app.py:73 | cleaning a reconciled table with real headers drops only empty rows |
| Upload.OutputColumns | app.py:73 | on success the output columns are exactly B's cleaned, lower-cased columns in order, and a second cleaning keeps all of them |
| Upload.PreparedOutput | app.py:47-73 | on two parsed tables that have the required columns and the join key, the output columns are B's non-placeholder headers lower-cased in order, and a second cleaning drops only empty rows |
| Upload.LoweredIsNamed | app.py:18 | a lower-cased header never starts with "Unnamed" |
| Upload.ReconciledRowNonEmpty | app.py:68-70 | a reconciled row is never empty when its B row was not |
| Upload.ReconcileKeepsNonEmpty | app.py:65-73 | a B table without empty rows yields an output without empty rows |
| Upload.RecleanFixpoint | app.py:15-19 | cleaning the output again changes nothing when the prepared B has real headers and no empty row |
| Upload.OutputNameOfStem | app.py:76 | "stem.ext" yields "stem_filtered.xlsx" |
| Upload.OutputNameNoDot | app.py:76 | a name without a dot gets "_filtered.xlsx" appended whole |
| Handler.FillMissing | app.py:68 | each cell of the column becomes its old value unless missing, else the filled value |
| Handler.BlankPipeRates | app.py:69 | pipe rows get rate "", other rows keep theirs |
| Handler.FillNonPipeRates | app.py:70 | non-pipe rows get their rate combined with the filled rate, pipe rows keep theirs |
| Handler.UpdateColumns | app.py:68-70 | after the three in-place updates in order, each merged row's "c/kg" and rate are `NewCkg` and `NewRate` of that row: "c/kg" is B's unless missing, else A's; the rate is "" for pipes and otherwise B's unless missing, else A's |
| Handler.MergeAndFill | app.py:65-73 | the merge, the in-place fills and the projection give exactly the reconciled table |
| Handler.UploadFiles | app.py:22-85 | the handler with its early returns and in-place updates gives exactly the outcome `Process` specifies |

## Left out

- Flask routing, CORS and the JSON response bodies are not modelled (framework glue). An outcome is a status with a message, or the name, URL and table.
- Saving the uploads, `pd.read_excel` with openpyxl, and `to_excel` are left out (file I/O and foreign libraries). Parsing is an input that either gives a table or an error message. A failure while saving or writing, which would surface as the generic 500, is not modelled.
- The `/download` route and the directory creation at start-up are not modelled (filesystem only). The `print` logging and traceback formatting are left out too.
- An excel2 upload whose file name is "excel1.xlsx" is saved over excel1's copy (app.py:30, 34, 36-37), so both tables are then read from B's file. The model takes the two parse results as independent inputs and cannot express this.
- Concurrent requests racing on the fixed `excel1.xlsx` upload path are not modelled (concurrency).
- Text.Lower: lower-cases ASCII letters only, where Python's `str.lower` also folds other Unicode letters.
- Text.SplitExt: models the POSIX rule for '/' only; backslashes are not separators, as under POSIX.
- A header label that is not text (a numeric header cell, say) makes the `.str.contains("^Unnamed")` of app.py:18 fail inside the try of app.py:43-53, which gives the 500 read error. The model's headers are strings only, so this case is not represented.
- Cells are empty, text or opaque integers. Floats and pandas dtype coercion are not modelled. For example, the `.str` accessor fails on a non-text `item` column; the model instead treats a number or missing item as not a pipe. Likewise, pandas `merge` (app.py:65) refuses a key column that holds text in one table and numbers in the other, which ends in the generic 500 of app.py:83-85; the model reaches no such error and simply finds no match.
- Reconciliation.Matches: missing key cells are equal to each other, which is how pandas `merge` treats NaN keys. Duplicate header names are resolved by their first occurrence, which pandas does not do.
- Upload.Process: a join-key column absent from either table is the generic 500 "Internal server error: '<key>'". It names the first of item, description, materials, in that order, that is absent from either table. The exact `KeyError` text and the order in which pandas finds missing keys are not modelled.
- Reconciliation.Joined: the merged frame's `_filled` columns are represented as the matched A row, not as suffixed column names. Only A's "c/kg" and "rate" are read from it, and the projection drops the rest.
- The unused `required_columns` list is not modelled, since no code reads it.
