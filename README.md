# PD / outage RCA tooling — a Dafny model

The repository feeds two Streamlit dashboards. Network outage and PD ("power down") alarm
spreadsheets are pushed into a document store. They are exported back as tables, trimmed of
unwanted columns, and then annotated by analysts with root causes (RCA-1, RCA-2), an action plan,
a status and a turnaround time.

This project models the data-handling core of that pipeline and proves what it does:

- **Record store** (`pd_DB.py`, and the class of the same name in `push_data.py`, whose modelled
  methods are identical; only pd_DB.py checks the file path and has `save_to_excel` and
  `close_connection`). `MongoDBUploader`
  sanitises record keys (`.` and `$` become `_`), clears a collection, inserts a batch, and
  exports the collection as a table. The scripts' entry point chains these into
  convert → clear → upload → export.
- **Column dropping** (`data_transformation.py`). `DataFrameManager` holds the exported table,
  drops a configured list of columns in place, and reports the listed names the table lacks.
- **Outage dashboard** (`app.py`). It loads the cleaned table: names are trimmed and missing
  GIDs become 0. It offers cascading Cluster → CE → GID choices, then narrows to the chosen rows
  and dates. Apply Updates broadcasts the five entered values onto those rows and merges them
  back with `DataFrame.update`.
- **PD dashboard** (`app1.py`). It keeps the rows with a 2025 PD count and offers sorted Cluster
  and CE choices. It prefills the five inputs from the chosen site's rows and writes the entered
  values with a `loc` assignment.

Files:

- `tables.dfy` (module `Tables`) is the pandas behaviour the scripts rely on, modelled once:
  - A table is a column list plus rows, and every row keeps its index label.
  - A missing value equals nothing.
  - Boolean masks are conjunctions of `Cond`s.
  - `unique()` keeps first-seen order.
  - `df[col] = v` broadcasts a value to every row.
  - `df.update(o)` aligns rows by index label and never writes a missing value.
  - `drop(errors='ignore')`.
  - `df.loc[mask, cols] = values`.
  - `Frame` is a table the scripts mutate in place.
- `key_sanitizer.dfy` (`KeySanitizer`) covers `preprocess_data`. A Python dict is an
  insertion-ordered list of pairs, and the comprehension is a left fold, so a later colliding
  key wins.
- `record_store.dfy` (`RecordStore`) holds the `MongoDBUploader` class and the entry point's run.
- `data_transformation.dfy` (`DataTransformation`) holds the `DataFrameManager` class.
- `outage_dashboard.dfy` (`OutageDashboard`) covers `app.py`.
- `cell_order.dfy` (`CellOrder`) is Python's `sorted` on the distinct non-missing values of a
  column. Strings compare by code point, and values of two different kinds raise `TypeError`.
  A sort of two or more values must compare at least one pair of different kinds whenever
  kinds are mixed, so the error happens exactly when the kinds are mixed.
- `pd_dashboard.dfy` (`PdDashboard`) covers `app1.py`.

Parameters stand in for the things the code only observes:

- The user's widget selections and text inputs are parameters.
- Whether a store call raised is a `failed` flag. The scripts catch and log every such
  exception.
- The records converted from the spreadsheet are a parameter.

## Model

| member | source | states |
|---|---|---|
| KeySanitizer.SanitizeKey | pd_DB.py:57 | the sanitised key has the same length; every `.` and every `$` becomes `_` and every other character is kept, so it contains neither; a key already free of both is returned unchanged |
| KeySanitizer.Preprocess | pd_DB.py:55-57 | the comprehension visits the fields in order, each one assigning its sanitised key; the result has at most as many fields as the source (its lookups and keys are characterised by `PreprocessLookup` and `PreprocessKeys`) |
| KeySanitizer.Put | pd_DB.py:57 | dict assignment: an existing key keeps its place and takes the new value, a new key is appended; all other lookups are unchanged |
| KeySanitizer.PreprocessLookup | pd_DB.py:55-57 | looking up key `k` in the sanitised record gives the value of the last source field whose key sanitises to `k`, and nothing if there is none |
| KeySanitizer.PreprocessKeys | pd_DB.py:57 | the sanitised record is a dict (distinct keys) whose keys are exactly the sanitised source keys |
| KeySanitizer.PreprocessClean | pd_DB.py:57 | no key of a sanitised record contains `.` or `$` |
| KeySanitizer.PreprocessPreserves | pd_DB.py:57 | a key free of `.` and `$` survives under its own name, and every value in the output comes from some source field |
| KeySanitizer.LaterKeyWins | pd_DB.py:57 | when two fields collide after sanitising, the later one's value is kept |
| KeySanitizer.PreprocessCleanDictUnchanged | push_data.py:48-50 | a record whose keys are already clean comes out exactly as it went in, same order |
| KeySanitizer.CollisionExample | pd_DB.py:57 | `{"a.b": 1, "a_b": 2}` sanitises to `{"a_b": 2}` |
| RecordStore.PreprocessAll | pd_DB.py:72 | one sanitised record per input record, in order; each is a dict with only clean keys |
| RecordStore.ToDataFrame | pd_DB.py:83-84 | the exported table is well formed, has one row per document labelled 0, 1, …, has a column for every key of any document, and each row shows its document's value or missing |
| RecordStore.MongoDBUploader.constructor | push_data.py:9-35 | the uploader starts over the collection's existing documents |
| RecordStore.MongoDBUploader.ClearCollection | pd_DB.py:59-65 | the collection becomes empty; a failed delete leaves it as it was |
| RecordStore.MongoDBUploader.UploadToMongo | pd_DB.py:67-78 | with no records (`None` or empty) or a failed insert nothing changes; otherwise the sanitised records are appended in order |
| RecordStore.MongoDBUploader.ExportFromMongo | pd_DB.py:80-89 | the table of the collection's documents, or an empty table when the store call fails; well formed, one row per document |
| RecordStore.SyncFromSpreadsheet | pd_DB.py:111-123 | the collection after the run is `Synced(...)` of the conversion and failure flags, and the result is the export of that collection |
| RecordStore.SyncSkipsFailedConversion | push_data.py:89-98 | a failed or empty conversion neither clears nor writes the collection |
| RecordStore.SyncReplaces | pd_DB.py:113-118 | a successful run replaces the collection by the sanitised records, whatever it held before |
| RecordStore.SyncIdempotent | push_data.py:91-96 | running again on the same conversion gives the same collection (a full overwrite, not an accumulation) |
| RecordStore.SyncFailureWindow | pd_DB.py:113-118 | a successful clear followed by a failed insert leaves the collection empty |
| RecordStore.SyncedExport | push_data.py:89-101 | after a successful run the export has one row per source record, and each cell holds the last source value mapped to that key |
| DataTransformation.DataFrameManager.constructor | data_transformation.py:7-18 | the manager keeps its uploader and drop list, with no table yet |
| DataTransformation.DataFrameManager.ExportData | data_transformation.py:20-23 | `df` becomes the exported collection, or the empty table when the export fails |
| DataTransformation.DataFrameManager.DropUnwantedColumns | data_transformation.py:25-33 | with no table nothing happens; otherwise the listed columns are dropped in place and the listed names the table lacks are reported, in list order |
| DataTransformation.DataFrameManager.GetDataFrame | data_transformation.py:35-38 | the current table, unchanged |
| DataTransformation.DropOnFailedExport | data_transformation.py:20-33 | after a failed export the drop leaves the empty table and reports every listed name |
| DataTransformation.WithoutNothing | data_transformation.py:28 | when the table has no columns, every listed name is reported missing |
| Tables.Where | app.py:26 | a masked selection keeps the columns and exactly the rows satisfying every condition, and stays well formed |
| Tables.NarrowAppend | app.py:26 | a masked selection keeps the relative order of the kept rows (the outage filter at app.py:26 and the PD-count filter at app1.py:31 alike) |
| Tables.NarrowCompose | app.py:56 | selecting by one mask and then another equals selecting by both |
| Tables.WhereIdempotent | app.py:26 | selecting twice with the same mask equals selecting once |
| Tables.NarrowNone | app.py:56 | when no row satisfies the mask, the selection is empty |
| Tables.Unique | app.py:18 | `unique()`: no value repeats, and the values are exactly those of the input |
| Tables.OptionsExact | app.py:17-22 | the options for a column under a mask are distinct and are exactly the values of that column in the rows satisfying the mask |
| Tables.OptionChosenIsNonEmpty | app.py:41-49 | choosing any non-missing offered option and adding it to the mask leaves at least one row |
| Tables.WithColumn | app.py:78-82 | `df[col] = v`: every row gets `v` in `col`, and the column set gains `col` |
| Tables.MergeRow | app.py:85 | one row of `df.update(o)`: a cell whose column occurs in `o`, in a row whose label occurs in `o`, takes the first such `o` row's value unless that value is missing; every other cell, the label and the keys are unchanged |
| Tables.UpdateFrom | app.py:85 | `df.update(o)`: same columns, rows and labels; a cell whose row label and column both occur in `o` takes `o`'s value unless that value is missing, when it keeps its own; rows whose label is absent from `o` and columns absent from `o` are unchanged |
| Tables.MergeBroadcast | app.py:78-85 | merging back a copy of the selected rows with non-missing values broadcast onto them writes those values on exactly the selected rows |
| Tables.SetWhere | app1.py:57 | `loc[mask, cols] = values`: rows satisfying the mask get the values in the existing columns; everything else is unchanged; the table stays well formed |
| Tables.SetWhereNoMatch | app1.py:57 | a masked write with no matching row changes nothing |
| Tables.WithoutAppend | data_transformation.py:28-32 | removing names from a concatenation removes them from each part, so the survivors keep their order |
| Tables.Without | data_transformation.py:28 | the kept elements are exactly those not in the second list |
| Tables.WithoutDistinct | data_transformation.py:32 | dropping from a duplicate-free column list leaves it duplicate-free |
| Tables.DropColumns | data_transformation.py:32 | `drop(columns=…, errors='ignore')`: the listed columns disappear from the column list and from every row; labels and the other cells are unchanged; absent names are ignored |
| Tables.DropIdempotent | data_transformation.py:32 | dropping the same list twice equals dropping it once |
| Tables.Frame.AssignColumn | app.py:78 | the frame's table becomes `WithColumn` of the old one |
| Tables.Frame.Update | app.py:85 | the frame's table becomes `UpdateFrom` of the old one |
| Tables.Frame.LocAssign | app1.py:57 | the frame's table becomes `SetWhere` of the old one |
| OutageDashboard.Strip | app.py:11 | the result is a slice of the name with only whitespace cut off either end, and it neither starts nor ends with whitespace; whitespace is every character `str.isspace` accepts, the Unicode space separators (U+1680, U+2000–U+200A, U+202F, U+205F, U+3000) included |
| OutageDashboard.StripTrailingSpace | app.py:11 | a name that neither starts nor ends with whitespace, followed by one whitespace character, strips back to the name |
| OutageDashboard.StripIdeographicSpace | app.py:11 | a header `Date` followed by an ideographic space (U+3000) strips to `Date` |
| OutageDashboard.StripIdempotent | app.py:11 | stripping a stripped name changes nothing |
| OutageDashboard.StripColumns | app.py:11 | every column is renamed to its stripped name; rows, labels and cells are kept; the table stays well formed |
| OutageDashboard.FillGids | app.py:13 | every missing GID becomes 0 and all other cells are unchanged; every GID is then an integer |
| OutageDashboard.LoadData | app.py:8-14 | the load fails exactly when `Date` or `GID` is missing or some GID is not an integer; otherwise each cell sits under its stripped column name, and a missing GID reads 0 |
| OutageDashboard.ClusterOptions | app.py:37 | distinct, and exactly the Cluster values present (a missing value included) |
| OutageDashboard.CeOptions | app.py:17-18 | distinct, and exactly the CE values of rows whose Cluster equals the choice |
| OutageDashboard.GidOptions | app.py:21-22 | distinct, and exactly the GIDs of rows matching both the chosen Cluster and the chosen CE |
| OutageDashboard.FilterData | app.py:25-26 | exactly the rows whose Cluster, CE and GID all equal the choices, same columns, still well formed |
| OutageDashboard.CeCascade | app.py:41-45 | every non-missing CE offered for a cluster offers at least one GID |
| OutageDashboard.GidCascade | app.py:45-49 | on loaded data, every GID offered selects at least one row |
| OutageDashboard.DateOptions | app.py:52 | distinct, and exactly the dates of the filtered rows |
| OutageDashboard.RowsToUpdate | app.py:56 | exactly the filtered rows whose date is among the chosen ones; none when no date is chosen |
| OutageDashboard.ApplyUpdates | app.py:56-94 | afterwards the table equals the old one with the five entered values written into its existing annotation columns, on exactly the rows matching the chosen Cluster, CE and GID whose date was chosen; with no such row it is unchanged |
| OutageDashboard.SelectedRows | app.py:49-56 | narrowing by Cluster, CE and GID, then by date, equals selecting by all four conditions at once |
| OutageDashboard.BroadcastFive | app.py:78-82 | the five column assignments put the five values on every selected row |
| OutageDashboard.MergeFive | app.py:78-85 | the broadcast followed by `data.update` is the masked write of the five values |
| OutageDashboard.NothingSelected | app.py:93-94 | with no row selected, the update changes nothing |
| OutageDashboard.NoDatesNoUpdate | app.py:53-59 | with no date chosen, Apply changes nothing |
| OutageDashboard.TwoDateScenario | app.py:52-85 | two rows of one Cluster/CE/GID on two days: choosing the first day writes its RCA1 only, and the other row keeps its missing RCA1 |
| CellOrder.StrLtIrreflexive | app1.py:34 | no string sorts before itself |
| CellOrder.StrLtTransitive | app1.py:34 | string order is transitive |
| CellOrder.StrLtTotal | app1.py:34 | of two different strings, one sorts first |
| CellOrder.CellLtOrder | app1.py:34 | `<` is a strict total order on the non-missing values of one kind |
| CellOrder.Insert | app1.py:34 | inserting into a sorted list keeps it strictly sorted and adds exactly that value |
| CellOrder.Sort | app1.py:34 | `sorted`: strictly ascending, and a permutation of the input |
| CellOrder.StrictlySortedDistinct | app1.py:34 | a strictly sorted list repeats no value |
| CellOrder.SortedOptions | app1.py:34-37 | `sorted(col.dropna().unique())`: fails exactly when two non-missing values have different kinds; otherwise strictly ascending, distinct, and exactly the non-missing values |
| PdDashboard.PdData | app1.py:31 | exactly the rows whose 2025 PD count is neither missing nor `""`, same columns, still well formed |
| PdDashboard.ClusterOptions | app1.py:34 | fails exactly on mixed kinds; otherwise strictly ascending, distinct, and exactly the non-missing Cluster values |
| PdDashboard.CeOptions | app1.py:37 | fails exactly when the chosen cluster's CE values mix kinds; otherwise strictly ascending, distinct, and exactly the non-missing CE values of rows in the chosen cluster |
| PdDashboard.FilteredPd | app1.py:40 | exactly the PD rows matching both the chosen cluster and the chosen CE |
| PdDashboard.CeCascade | app1.py:37-40 | every CE offered leaves at least one row after narrowing to the cluster and CE |
| PdDashboard.SiteOptions | app1.py:47 | distinct, and exactly the Site Name values of the narrowed rows |
| PdDashboard.SiteDataAsWritten | app1.py:48 | the narrowed rows whose Site ID equals the chosen value |
| PdDashboard.SiteData | app1.py:47-48 | the narrowed rows whose Site Name equals the chosen site (corrected key); every non-missing site offered has rows there |
| PdDashboard.Prefill | app1.py:50-54 | the default is `""` when the site has no rows or every row lacks the value; otherwise it is the first row's value |
| PdDashboard.UpdateAsWritten | app1.py:57 | the five values land on every row of the full table whose Site ID equals the chosen value; every other row, and every other column of those rows, is unchanged; when no Site ID equals it, the table is unchanged |
| PdDashboard.UpdatePd | app1.py:57 | the five values land on every row of the full table with the chosen Site Name (corrected key); every other row, and every other column of those rows, is unchanged; so every row keeps its Site Name |
| PdDashboard.UpdatePdData | app1.py:56-57 | the in-place `loc` assignment masked on Site ID, as written, leaves the table equal to `UpdateAsWritten` of the old one |
| PdDashboard.UpdatePdDataByName | app1.py:56-57 | the same in-place assignment masked on Site Name (corrected key) leaves the table equal to `UpdatePd` of the old one |
| PdDashboard.AlphaIsOfferedButNotUpdated | app1.py:47-57 | a one-row table with Site ID `S1` and Site Name `Alpha`: `Alpha` is offered; as written its site rows are empty and the update writes nothing; under the corrected key the row is written |
| PdDashboard.ChosenSiteIsUpdated | app1.py:40-57 | under the corrected key, choosing any offered site writes the five values onto at least one row of the full table |
| PdDashboard.UpdatedSiteRows | app1.py:48-57 | after the update the site still has rows, and each holds the entered values |
| PdDashboard.PrefillAfterUpdate | app1.py:50-57 | after the update, every input box of the same site prefills with the value just entered |

## Left out

- Spreadsheet reading and writing is not modelled, along with `save_to_excel`, the `BytesIO`/xlsxwriter export and `os.makedirs`. This is file I/O. The converted records and loaded tables are parameters.
- `excel_to_json` is not modelled; its output is the `converted` parameter, and a conversion exception is `None`. This is file I/O.
- The document-store connection is not modelled: environment lookup, TLS, `close_connection`, and the constructor's `ValueError`/`None` client paths. This is network I/O. Each store call's failure is a `failed` flag.
- `_id`: the store adds an `_id` field to every inserted document, and the export then shows an `_id` column. Store-assigned identifiers are not modelled, so the exported table has only the record keys.
- `RecordStore.MongoDBUploader.ExportFromMongo`: returns the documents in insertion order. `find()` promises no order.
- `RecordStore.MongoDBUploader.UploadToMongo`: a failed `insert_many` inserts nothing here. The real ordered insert may keep the documents before the failing one.
- `RecordStore.MongoDBUploader.ClearCollection`: a failed `delete_many` deletes nothing here. A delete interrupted part-way may already have removed some documents.
- Streamlit widgets, `st.cache_data`, messages, logging and `print` are not modelled. This is UI and console output; selections and text inputs are parameters.
- `pd.to_datetime(...).dt.date` is not modelled. Dates are opaque, already-parsed day numbers.
- Floating-point cells are not modelled. Numbers are integers.
- `OutageDashboard.LoadData`: `astype(int)` would also convert a numeric string or float GID. Here only a missing or integer GID loads, and anything else counts as the conversion error.
- `OutageDashboard.LoadData`: requires the stripped column names to be distinct. pandas allows duplicate names after stripping, and the model's map from name to cell cannot hold them.
- `PdDashboard.PdData`: a table without a `2025 PD Count` column stops app1.py:31 with a `KeyError`; the model reads the absent column as all-missing and keeps no row. The displayed columns (app1.py:43-44) are selected only when some row is kept, so `HasPdColumns` is required by the update steps (`UpdateAsWritten`, `UpdatePd` and the in-place methods), not by the filter; the option and narrowing steps read an absent column as all-missing.
- `OutageDashboard.ApplyUpdates`: requires Cluster, CE, GID and Date to exist (a `KeyError` otherwise). It does not require `Site Name`, `APPALARMTIME`, `APPCANCELTIME` or `OUTAGEDURATION`; app.py:62-63 shows those columns of the selected rows before the Apply button and stops with a `KeyError` when one is absent, which the model does not capture.
- The order of option lists is not part of the `unique()` contracts. `Unique` computes first-seen order, but only membership and distinctness are proved.
- `load_data` in app1.py (lines 9-15) is never called by `main`, so it is not modelled.
- data_visualization.py is not part of this model.
- `PdDashboard.Prefill`: Streamlit's handling of a non-string default is not modelled. A numeric or missing first value is returned as the cell itself.

## Findings

| source | as written | input that shows it | evidently intended | confidence | as-written member | corrected member |
|---|---|---|---|---|---|---|
| app1.py:47-48,57 | the site is chosen from the `Site Name` values, but `site_data` and the update mask compare it against `Site ID` | one PD row with Site ID `S1` and Site Name `Alpha`: choosing `Alpha` prefills empty inputs and the update writes nothing | key the site rows and the update by `Site Name`, so the chosen site's rows are prefilled and written (in place: `PdDashboard.UpdatePdDataByName`, against `PdDashboard.UpdatePdData` as written) | high, not executed | PdDashboard.UpdateAsWritten | PdDashboard.UpdatePd |
