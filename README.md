# Chrono-Ark CSV Editor: a Dafny model of its editing and translation core

The Chrono-Ark CSV Editor is a PyQt desktop program for the CSV localisation tables of the game
Chrono Ark. You import CSV files, open one into a table, add, insert or delete columns, and fill a
column (or a set of selected cells) with machine translations. The translations come from a local
DeepLX server, whose binary the editor can download from the DeepLX releases. This project models
the sequential logic inside `csv_editor.py` and proves what that logic promises:

- **`CsvData`**: the in-memory `csv_data` (row 0 is the header) and the three column edits
  (`add_column`, `insert_column_before`, `delete_column`). The edits update the rows in place, with
  Python's list semantics. `insert` past the end appends. `del` on a row without the cell raises
  `IndexError`, halfway through the loop.
- **`ImportedFiles`**: the `imported_files` list and `current_file`, as `import_file`,
  `remove_selected_file`, `load_csv_file` and `save_file_as` change them.
- **`Grid`, `LoadSave`, `TableView`**: the table widget as a map from positions to item texts.
  `display_csv_data` loads it. `save_file` collects the rows from it. The two translation runs
  update it in place.
- **`Translation`**: the acceptance test for a DeepLX reply, and the endpoint loop of
  `translate_column` (rotation of `current_endpoint` on HTTP 429). It also gives specification
  functions for both batch runs: what they leave in the table, what they count, and which requests
  they send.
- **`Languages`**: `detect_lang_code` and the language fields of the translate dialog.
- **`DeepLXAssets`**: the platform-to-release-asset table of `download_deeplx`, and the lookup of
  the asset's download URL.
- **`Text`**: the parts of Python's `str` the code relies on: `strip()`, `lower()`,
  `startswith()` and `in`.

The editor has no circuit breaker, no exponential backoff, no retry budget, no audit log and no
statistics. The only retry logic is the endpoint loop of `translate_column`, which tries each
endpoint once per row. The model follows the code and has none of those features either.

The DeepLX server and the network are an oracle. Every POST is answered by a `Reply`: either
`Response(status, data, text)`, with the `data` and `text` fields of the JSON body (`""` when
absent), or `Raised`, for anything that raised (connection error, timeout, a body that is not
JSON). A run takes one reply per request it may send. Cancelling the progress dialog is modelled
by `cancelAt`, the index of the first row or item at which `wasCanceled()` is true. The requests a
run sends are returned as a trace, so their endpoints, texts and languages can be stated.

## Model

| member | source | states |
|---|---|---|
| Text.Strip | csv_editor.py:985 | `strip()` never lengthens a text; the result is empty exactly when the text is all whitespace (Python's `isspace` set); otherwise it neither starts nor ends with whitespace |
| Text.StripIsSlice | csv_editor.py:709 | what `strip()` keeps is a contiguous slice of the original text, and every character it drops, before or after that slice, is whitespace |
| Text.StripIsStripped | csv_editor.py:709 | stripping a stripped text changes nothing |
| Text.Lower | csv_editor.py:824 | `lower()` keeps the length and lower-cases each character on its own |
| Text.LowerIdempotent | csv_editor.py:824 | lower-casing twice is lower-casing once |
| Grid.Item | csv_editor.py:258 | `table.item(row, col)` yields a text exactly when the position holds an item |
| Grid.CellText | csv_editor.py:259 | a position with an item is written as that item's text, and a position without one as `""` |
| Grid.SavedRow | csv_editor.py:256-260 | a saved table row has one text per table column, and cell `col` is the text written for position (`row`, `col`) |
| Grid.SavedRows | csv_editor.py:254-260 | `save_file` writes the original header, then exactly `rowCount` rows of `columnCount` texts each; cell `col` of written row `i` is the text of table position (`i - 1`, `col`) |
| Grid.KeptKeysValid | csv_editor.py:733 | changing the texts of existing items leaves every item inside the table |
| CsvData.InsertAt | csv_editor.py:341-343 | `list.insert` adds exactly one cell: the new cell lands at the index, or at the end when the index is past it; the cells before it stay and the rest follow it in order |
| CsvData.RemoveAt | csv_editor.py:374-376 | `del row[c]` on an existing cell removes exactly that cell: the cells before it stay and the later ones move left by one |
| CsvData.AddedColumn | csv_editor.py:311-313 | `add_column` keeps the number of rows |
| CsvData.AddedColumnFacts | csv_editor.py:311-313 | after `add_column` the header ends with the name and every data row with `""`; each row grows by one and keeps its cells |
| CsvData.InsertedColumn | csv_editor.py:341-343 | `insert_column_before` keeps the number of rows |
| CsvData.InsertedColumnFacts | csv_editor.py:341-343 | inserting at `c`: the header holds the name at `c` and every data row holds `""` there; cells before `c` stay and the rest move right by one |
| CsvData.InsertedColumnClamps | csv_editor.py:341-343 | a row shorter than `c` gets the new cell at its end |
| CsvData.FirstShortRow | csv_editor.py:374-376 | the first row without cell `c`: every row before it has the cell and that row does not, so `del` raises exactly there |
| CsvData.DeletedColumn | csv_editor.py:374-376 | a partial or complete delete keeps the number of rows |
| CsvData.DeletedColumnFacts | csv_editor.py:374-376 | after a completed `delete_column` every row has lost exactly its cell `c`, and the other cells keep their order |
| CsvData.DeleteUndoesInsert | csv_editor.py:341-376 | inserting a column at `c` and then deleting column `c` restores `csv_data` |
| CsvData.DeleteUndoesAdd | csv_editor.py:311-376 | on a rectangular table, deleting the column `add_column` appended restores `csv_data` |
| CsvData.Document.constructor | csv_editor.py:200-205 | the document holds the rows that were read |
| CsvData.Document.AddColumn | csv_editor.py:294-316 | with no file open, or an empty or cancelled name, nothing changes and nothing is raised; with no rows at all `csv_data[0]` raises `IndexError` and the rows stay; otherwise the rows become `AddedColumn` of the old rows |
| CsvData.Document.InsertColumnBefore | csv_editor.py:320-348 | no file open, no selected column (`-1`), or an empty name, changes nothing and raises nothing; with no rows at all `IndexError` is raised and the rows stay; otherwise the rows become `InsertedColumn` of the old rows |
| CsvData.Document.DeleteColumn | csv_editor.py:350-378 | no file open, no selected column, or a No to the confirmation changes nothing and raises nothing; otherwise the rows before the first short row lose cell `c`; `IndexError` is raised exactly when there are no rows or such a row exists, and the later rows stay as they were |
| ImportedFiles.RemoveFirst | csv_editor.py:179 | `list.remove` drops exactly one occurrence of the path |
| ImportedFiles.IndexOf | csv_editor.py:179 | the index of the first occurrence, which is what `remove` drops |
| ImportedFiles.ImportedKeepsOrder | csv_editor.py:158-161 | importing only appends: the listed paths keep their places at the front |
| ImportedFiles.ImportedMembers | csv_editor.py:158-161 | after importing, a path is listed exactly when it was listed before or is a non-empty imported one |
| ImportedFiles.ImportedStaysClean | csv_editor.py:158-161 | importing never lists a path twice and never lists the empty path |
| ImportedFiles.ImportIsIdempotent | csv_editor.py:158-161 | importing the same paths again changes nothing |
| ImportedFiles.AlreadyListed | csv_editor.py:158-161 | importing paths that are all empty or already listed changes nothing |
| ImportedFiles.RemovedFacts | csv_editor.py:178-179 | removing a path drops it, keeps every other path in order and adds nothing; removing an unlisted path changes nothing |
| ImportedFiles.DropAtFacts | csv_editor.py:179 | dropping one entry of a duplicate-free list loses exactly that path |
| ImportedFiles.RenamedFacts | csv_editor.py:284-287 | after `save_file_as` to `p` the list holds `p` exactly once, the old path is gone unless it is `p`, every other path keeps its listing, and there are no duplicates |
| ImportedFiles.RenamedKeepsOrder | csv_editor.py:284-287 | the list after `save_file_as` starts with the list as `remove` leaves it, in its order, and at most `p` follows |
| ImportedFiles.CountOfUnique | csv_editor.py:287 | in a duplicate-free list a listed path occurs once and an unlisted one never |
| ImportedFiles.FileList.constructor | csv_editor.py:25-27 | a fresh window has no imported files and no open file |
| ImportedFiles.FileList.ImportFiles | csv_editor.py:152-164 | the list becomes `Imported` of the old list and the chosen paths, and stays free of duplicates and of the empty path |
| ImportedFiles.FileList.RemoveSelected | csv_editor.py:173-191 | the list becomes `Removed` of the old list; the open file is closed exactly when it was the removed one |
| ImportedFiles.FileList.OpenFile | csv_editor.py:198-216 | a file that was read and held rows becomes the open file; otherwise the open file is unchanged; the list never changes |
| ImportedFiles.FileList.SaveFileAs | csv_editor.py:273-292 | a cancelled dialog changes nothing; otherwise the new path becomes the open file and the list becomes `Renamed`, still without duplicates |
| Languages.DetectLangCode | csv_editor.py:823-833 | the guess is `""` or one of EN, ZH, JA, KO |
| Languages.LowerCodes | csv_editor.py:825-831 | the codes `detect_lang_code` compares with are EN, ZH, JA, KO lower-cased |
| Languages.DetectIsFirstMatch | csv_editor.py:823-833 | the guess is code `k` exactly when rule `k` matches and no earlier rule does, and `""` exactly when no rule matches |
| Languages.DetectIgnoresCase | csv_editor.py:824 | lower-casing the column name first does not change the guess |
| Languages.DetectRecognisesCodes | csv_editor.py:823-832 | a column named by a code, in upper or lower case, is guessed as that code |
| Languages.EnglishWins | csv_editor.py:825-826 | a name mentioning `english` is guessed as EN whatever else it mentions |
| Languages.DefaultSourceLang | csv_editor.py:836 | the source-language default is the guess from the source column's name, else EN |
| Languages.DefaultTargetLang | csv_editor.py:842 | the target-language default is the guess from the target column's name, else KO |
| Languages.UpdatedSourceLang | csv_editor.py:848-851 | choosing another source column sets the field to its guess when there is one and keeps the field otherwise |
| DeepLXAssets.SelectAssetFollowsScheme | csv_editor.py:484-512 | an asset is chosen exactly when the platform has a supported architecture, and it is `deeplx_<os>_<arch>` (`.exe` on Windows) for that architecture |
| DeepLXAssets.SchemeNames | csv_editor.py:484-509 | the naming scheme gives the seven asset and executable names the branches use |
| DeepLXAssets.WindowsNames | csv_editor.py:484-492 | the scheme's two Windows names |
| DeepLXAssets.LinuxNames | csv_editor.py:493-503 | the scheme's three Linux names |
| DeepLXAssets.DarwinNames | csv_editor.py:504-509 | the scheme's two macOS names |
| DeepLXAssets.SupportedPlatforms | csv_editor.py:484-512 | every macOS machine is supported; Windows and Linux only for the listed machine substrings; every other system is unsupported |
| DeepLXAssets.ExecutableNames | csv_editor.py:484-509 | the executable is `deeplx.exe` on Windows and `deeplx` elsewhere, and Windows never gets an ARM build |
| DeepLXAssets.SelectAssetIgnoresCase | csv_editor.py:470 | the machine name is compared in lower case |
| DeepLXAssets.WindowsX64BeforeX86 | csv_editor.py:485-488 | any Windows machine name containing `x86_64` gets the amd64 build, although it also contains `x86` |
| DeepLXAssets.OtherSystemsUnsupported | csv_editor.py:510-512 | any other operating system is unsupported, whatever the machine |
| DeepLXAssets.FindDownloadUrl | csv_editor.py:515-519 | the loop returns exactly `FirstUrl`: the URL of the first asset with the wanted name |
| DeepLXAssets.FirstUrlIsFirstMatch | csv_editor.py:515-519 | the URL is that of the first asset with the name, and there is none when no asset has the name |
| DeepLXAssets.PlanDownload | csv_editor.py:474-537 | a failed release request ends the download with an error; otherwise the platform is unsupported exactly when no asset is chosen; the asset is reported missing exactly when the release lists no non-empty URL for it, and downloaded exactly when it does |
| DeepLXAssets.DownloadUsesChosenAsset | csv_editor.py:515-528 | a download fetches the URL listed for the chosen asset and stores it under that asset's executable name |
| Translation.Candidate | csv_editor.py:731 | `data or text`: `data` unless it is empty; empty exactly when both are |
| Translation.AcceptedText | csv_editor.py:728-738 | a reply yields a translation exactly when it is a 200 whose candidate is non-empty and does not start with `http`, and then the translation is that candidate |
| Translation.DataShadowsText | csv_editor.py:731-732 | a non-empty `data` starting with `http` is rejected even when `text` would pass |
| Translation.OnlyOkIsAccepted | csv_editor.py:728-742 | a 429, any other non-200 status and an exception are never accepted |
| Translation.TryEndpoints | csv_editor.py:992-1044 | `current_endpoint` stays an index into the endpoint list |
| Translation.FirstAccepted | csv_editor.py:992-1044 | the text of the first accepted reply from a given attempt on, which is acceptable, and none when every reply is rejected |
| Translation.TryEndpointsFacts | csv_editor.py:992-1044 | the endpoint loop keeps earlier requests, adds at least one and at most one per remaining attempt, each with the source text to a listed endpoint; a text it delivers is accepted |
| Translation.TryEndpointsDelivers | csv_editor.py:992-1044 | the endpoint loop delivers the first accepted reply's text and posts nothing after the request it answered, every earlier reply having been rejected; when no reply is accepted it made every remaining attempt |
| Translation.PostToEndpoints | csv_editor.py:992-1044 | the attempt loop returns exactly the accepted text, the endpoint index and the requests that `TryEndpoints` describes |
| Translation.RateLimitRetriesSameEndpoint | csv_editor.py:993-1037 | with two endpoints, the attempt after a 429 posts to the same endpoint again |
| Translation.ColumnStep | csv_editor.py:975-1050 | one row keeps `current_endpoint` in range |
| Translation.ColumnStepItem | csv_editor.py:1018-1024 | a row with a non-blank source and an accepted reply sets its target item to the first accepted reply's text; every other item, a rejected row's target included, is unchanged |
| Translation.ColumnStepCounts | csv_editor.py:985-1050 | a row with a non-blank source adds one to translated when a reply is accepted and one to failed otherwise; a blank row adds nothing |
| Translation.ColumnStepRequests | csv_editor.py:992-1006 | a row only appends requests, each to a listed endpoint with a non-blank text and the chosen languages |
| Translation.ColumnRun | csv_editor.py:975-1050 | `current_endpoint` stays in range from row to row |
| Translation.ColumnRunKeeps | csv_editor.py:975-1024 | positions outside the target column, and rows not yet visited, keep their item |
| Translation.NonBlankRows | csv_editor.py:985-986 | at most one counted row per visited row |
| Translation.TranslatedRows | csv_editor.py:1018-1028 | at most one translated row per visited row |
| Translation.FailedRows | csv_editor.py:1049-1050 | at most one failed row per visited row |
| Translation.ColumnRunCounts | csv_editor.py:975-1050 | translated is the number of visited rows with a non-blank source and an accepted reply, failed the number with a non-blank source and none; together, the visited rows with a non-blank source |
| Translation.ColumnRunWrites | csv_editor.py:1015-1026 | the target cell of a visited row with a non-blank source and an accepted reply holds the first accepted reply's text; every other target cell keeps its item |
| Translation.ColumnRunRequests | csv_editor.py:985-1006 | every request goes to a listed endpoint with a non-blank text and the chosen languages |
| Translation.SelectedStep | csv_editor.py:700-742 | one selected item adds and removes no items |
| Translation.SelectedStepFacts | csv_editor.py:709-742 | a blank item changes nothing; otherwise its stripped, trimmed text is posted once to the local server, and either the reply is accepted, translated grows by one and the item takes the translation, or failed grows by one and the item is unchanged |
| Translation.SelectedStepItem | csv_editor.py:730-738 | a non-blank item whose reply is accepted takes the reply's text; every other item is unchanged |
| Translation.SelectedRun | csv_editor.py:700-745 | a selection run adds and removes no items |
| Translation.SelectedRunKeeps | csv_editor.py:700-745 | an item that is not among the visited selected ones keeps its text |
| Translation.SelectedRunKeepsFrom | csv_editor.py:700-745 | an item not visited between two points of the run keeps the text it had at the first |
| Translation.NonBlankItems | csv_editor.py:709-711 | at most one counted item per visited item |
| Translation.TranslatedItems | csv_editor.py:728-735 | at most one translated item per visited item |
| Translation.FailedItems | csv_editor.py:737-745 | at most one failed item per visited item |
| Translation.SelectedRunCounts | csv_editor.py:700-745 | with distinct selected items, translated is the number of visited non-blank items whose reply is accepted, failed the number whose reply is rejected; together, the visited non-blank items |
| Translation.SelectedRunWrites | csv_editor.py:730-738 | every item keeps its text or holds an accepted translation |
| Translation.SelectedRunResult | csv_editor.py:700-745 | with distinct selected items, a visited non-blank item whose reply is accepted holds that reply's text, and every other selected item keeps its text |
| Translation.SelectedRunRequests | csv_editor.py:709-725 | every request goes to the local server with a non-empty trimmed text and the chosen languages |
| LoadSave.DisplayedItem | csv_editor.py:218-233 | only positions inside the new size hold items, and a position a data row reaches holds that row's cell |
| LoadSave.PartlyDisplayed | csv_editor.py:230-233 | while the rows are being filled, only positions inside the new size hold items |
| LoadSave.SaveAfterLoadAsWritten | csv_editor.py:224-260 | as written, loading a rectangular CSV into a fresh window and saving it adds a row of empty cells |
| LoadSave.OneRowFileGrowsAsWritten | csv_editor.py:224-260 | as written, the file `name` / `a` is saved as `name` / `a` / an empty row |
| LoadSave.SaveAfterLoadCorrected | csv_editor.py:224-260 | with one table row per data row, saving a loaded rectangular CSV writes back exactly the loaded rows |
| TableView.TableView.constructor | csv_editor.py:59 | a fresh table widget is empty |
| TableView.TableView.Clear | csv_editor.py:186-188 | clearing leaves no rows, no columns and no items |
| TableView.TableView.DisplayCsvData | csv_editor.py:218-233 | empty data changes nothing; otherwise the table has one row per data row and `len(csv_data[0])` columns (the corrected row count of the finding below), and every position holds what `DisplayedItem` says |
| TableView.TableView.FillRow | csv_editor.py:231-233 | one data row is written into its table row, cells outside the columns are ignored, and nothing else changes |
| TableView.TableView.SaveRows | csv_editor.py:246-260 | with empty `csv_data` nothing is written; otherwise the rows are exactly `SavedRows` of the header and the table, so each cell is its position's item text or `""` |
| TableView.TableView.TranslateRow | csv_editor.py:975-1053 | one row updates the table and the counts exactly as `ColumnStep` says, so as `ColumnStepItem` and `ColumnStepCounts` state |
| TableView.SourceColumns | csv_editor.py:815-819 | the source combo lists exactly the table's columns other than the target, in increasing order |
| TableView.OnlyColumnHasNoSource | csv_editor.py:815-819 | the source combo is empty exactly when the target is the table's only column |
| TableView.TableView.TranslateChosenColumn | csv_editor.py:881-984 | an empty language field only warns and changes nothing; otherwise, with no source column (`currentData()` is None) `TypeError` is raised exactly when a row is reached before cancellation, and nothing changes; with one, the table, counts and requests are those of `ColumnRun` from that column |
| TableView.TableView.TranslateColumn | csv_editor.py:957-1053 | the table, counts and requests are those of `ColumnRun` over the rows before cancellation; translated counts the visited non-blank rows with an accepted reply and failed those without; each such row's target holds the first accepted reply's text and every other item is unchanged; every request is well-formed |
| TableView.TableView.TranslateItem | csv_editor.py:709-742 | one selected item updates the table and the counts exactly as `SelectedStep` says, so as `SelectedStepFacts` states |
| TableView.TableView.TranslateSelectedCells | csv_editor.py:685-745 | the table, counts and requests are those of `SelectedRun` over the items before cancellation; unselected items are unchanged; with distinct items, translated counts the visited non-blank items with an accepted reply, failed those with a rejected one, and each item holds its accepted reply's text or its old text; the table stays valid; every request is well-formed |

## Left out

- Widgets, menus, dialogs, progress dialogs, column widths, the file tree and `processEvents` are
  UI. The model keeps only the values they carry: a name returned by a dialog, the selected
  column, the cancellation point.
- Reading and writing CSV through Python's `csv` module (its quoting) is not modelled. `load_csv_file`
  is modelled only by the rows it produces (`CsvData.Document.constructor`) and by its effect on the
  open file (`FileList.OpenFile`).
- HTTP requests are not modelled. The status probes (the server check of the translate dialogs
  and the hint after a run) are not modelled at all: they only choose message texts. The
  translate POSTs are replaced by oracle replies. Exceptions inside the translate loops are one `Raised` reply. The GitHub release
  request is the `release` argument of `PlanDownload`: the release's asset list, or none when the
  request, its status or its JSON body raised.
- The column slots also insert or remove the table widget's own column before they touch
  `csv_data`. That widget column is not modelled, and neither is what PyQt does with an
  `IndexError` that escapes a slot. The model reports `raised` and leaves `csv_data` as it is at that point.
- TableView.TableView.FillRow: it assumes that Qt's `setItem` ignores a position outside the
  table, as for a data row longer than the header. The source does not guard against that case.
- Streaming the download to disk, `chmod`, and starting or stopping the DeepLX process are file
  and process I/O.
- `time.sleep(0.5)` after a success is a wall-clock delay with no effect on the state.
- The summary messages after a run are not modelled, and neither is the `"503" in str(failed_count)`
  hint. That hint tests the digits of a count, not an HTTP status.
- Non-string `data`/`text` fields in a reply are not modelled. A reply's fields are strings, `""` when absent.
- Text.Lower: only ASCII letters are lower-cased, where Python's `lower()` knows all of Unicode. The
  words and codes compared with the result are ASCII, but a few non-ASCII characters lower-case to
  ASCII in Python. The Kelvin sign U+212A becomes `k`, so Python guesses KO for the column name
  "\u212Aorean" where the model guesses `""`. The same holds for a machine name compared in
  `download_deeplx`.
- Translation.SelectedRunCounts: it requires the selected items to be distinct. Qt's
  `selectedItems()` never lists an item twice, but the model asks for it explicitly.
- Translation.SelectedRunResult: it requires distinct selected items for the same reason.
- TableView.TableView.TranslateSelectedCells: the exact counts and item texts are stated for
  distinct selected items only. For repeated ones, `SelectedRunWrites` states of the same run that
  each item keeps its text or holds an accepted translation.
- CsvData.Document.InsertColumnBefore and CsvData.Document.DeleteColumn: no precondition ties the
  index to the row lengths. Python's `insert` appends when the index is past the end, and `del`
  raises. Both are modelled as such rather than excluded.

## Findings

`TableView.TableView.DisplayCsvData` uses the corrected row count. The row count as written is
kept in `LoadSave`, where the two lemmas of the as-written column state what it does.

| source | as written | input that shows it | evidently intended | confidence | as-written member | corrected member |
|---|---|---|---|---|---|---|
| csv_editor.py:224 | `display_csv_data` sets `len(csv_data)` table rows, header included, but fills only the `len(csv_data) - 1` data rows, so the last table row is never written and `save_file` writes one row more than was loaded | the file `[["name"], ["a"]]`, loaded into a fresh window and saved, becomes `[["name"], ["a"], [""]]` | one table row per data row (`len(csv_data) - 1`), so that saving writes back what was loaded | not executed | LoadSave.OneRowFileGrowsAsWritten | LoadSave.SaveAfterLoadCorrected |
