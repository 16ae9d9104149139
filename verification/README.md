# Cadet nominal-roll builder: a verified model

The roster page lets a user upload one or more spreadsheet files of cadets.
From the page they can:
- see the cadets sorted and grouped by batch (C, B2, B1) and by rank (`RANK_ORDER`);
- search them by name;
- tick the ones wanted;
- export a "nominal": a new sheet with an optional heading, the header row of the
  first ticked cadet's file, and a copy of each ticked cadet's row with the serial
  column renumbered 1..N.

This project models the logic of `script.js`, the manual-upload variant, in Dafny.
It proves what that logic guarantees.

| Module | File | What it holds |
|---|---|---|
| `Strings` | strings.dfy | The JavaScript string operations used: `toUpperCase`/`toLowerCase` on ASCII letters, `trim` with the ECMAScript whitespace set, `includes`, and a code-point comparison in place of `localeCompare` |
| `Sequences` | sequences.dfy | `indexOf` and distinctness |
| `Batches` | batches.dfy | `getBatch`, the batch of a registration number |
| `Ingest` | ingest.dfy | The body of `reader.onload` as functions over a decoded sheet: column roles found by header search, the row filter, the normalised record, and the records of a whole upload |
| `Order` | order.dfy | The comparator of `displayCadets` and the stable sort, as an insertion sort |
| `Grouping` | grouping.dfy | The nested batch and rank groups, and the `data-idx` (`indexOf` position) of each item |
| `Selection` | selection.dfy | The per-item checked and hidden flags, search, select-all and deselect-all, the count, and the records a set of ticks selects |
| `Export` | export.dfy | The rows, merges and column widths `generateNominal` hands to the sheet writer |
| `Session` | session.dfy | The page state as a class (`allCadets`, `displayedCadets`, and the items with their flags) with one method per event handler |

The main results are these.
- The sorted roster is a permutation of the upload.
- The sorted roster is non-decreasing by (batch index, rank index, name).
- The sort is stable, and any stable sort gives the same list.
- The page shows every record whose rank is in `RANK_ORDER`, exactly once, in roster order. It shows no other record.
- The batch groups appear in the order C, B2, B1, and the rank groups inside a batch follow `RANK_ORDER`.
- Every `data-idx` is the record's position in the sorted roster.
- With every item ticked, the export receives exactly the shown records in roster order.
- The export numbers its data rows 1..N in the serial column and copies every other cell.

In these places the code behaves in ways one might not expect; the model follows the code.
- `getBatch` does not trim the registration number. `Batches.GetBatchIgnoresTrim` proves that this makes no difference.
- A rank cell that holds only whitespace is truthy, so it is not defaulted to "CDT". It becomes the empty rank (`Ingest.BlankRankIsEmpty`).
- A rank outside `RANK_ORDER` gets index -1. Such a record sorts before SUO within its batch and appears in no rank group. Its batch group is still shown, possibly with no rank group inside (`Grouping.UnknownRanksOnly`).
- Column roles are found again for every file, and each record keeps its own file's header row. The export takes its header row from the first selected record, whichever file that record came from.

## Model

| member | source | states |
|---|---|---|
| Strings.Trim | script.js:74 | Definition of `trim`; its behaviour is stated by Strings.TrimSpec and Strings.TrimEmpty |
| Strings.Contains | script.js:105-107 | Definition of `includes`; its behaviour is stated by Strings.UpperKeepsDigits and Strings.ContainsFramed |
| Batches.GetBatch | script.js:103-109 | Definition of `getBatch`; its behaviour is stated by Batches.GetBatchByYear, Batches.GetBatchAp21, Batches.GetBatchEmpty and Batches.GetBatchIgnoresTrim |
| Ingest.CellAt | script.js:69 | Definition of `row[i]`, undefined outside the row; stated by Ingest.NoNameColumnNoRecords |
| Ingest.HeaderMatches | script.js:59-61 | Definition of the `findIndex` test; stated by Ingest.FindIndex |
| Ingest.FindRoles | script.js:59-61 | Definition of `nameIdx`, `rankIdx` and `regIdx`; each is an Ingest.FindIndex, whose contract states it |
| Ingest.HasData | script.js:71-72 | Definition of `hasData`; stated by Ingest.IngestRowsSound and Ingest.NoQualifyingRows |
| Ingest.IsCadetRow | script.js:71-74 | Definition of the row filter; stated by Ingest.IngestRowsSound and Ingest.IngestComplete |
| Ingest.RankOf | script.js:77 | Definition of `rank`; stated by Ingest.RankNormalised, Ingest.BlankRankIsEmpty and Ingest.RecordDefaults |
| Ingest.RegOf | script.js:75 | Definition of `regNo`; stated by Ingest.RecordDefaults |
| Ingest.MakeCadet | script.js:79-87 | Definition of the pushed record; stated by Ingest.IngestRecords and Ingest.RecordDefaults |
| Ingest.IngestSheet | script.js:53-90 | Definition of the records of one file; stated by Ingest.IngestRowsSound, Ingest.IngestComplete, Ingest.IngestRecords and Ingest.NoNameColumnNoRecords |
| Ingest.IngestFiles | script.js:26-31 | Definition of `allCadets` after the files loaded so far; stated by Ingest.IngestFilesOrdered and Session.Page.LoadFiles |
| Order.Compare | script.js:113-121 | Definition of the comparator; stated by Order.CompareTotal, Order.CompareTransitive and Order.UnknownRankFirst |
| Grouping.OfBatch | script.js:127 | Definition of the batch filter; stated by Grouping.OfBatchMember |
| Grouping.OfRank | script.js:139 | Definition of the rank filter; stated by Grouping.OfRankMember |
| Grouping.RankGroups | script.js:138-151 | Definition of the rank groups of a batch; stated by Grouping.RankGroupsShape, Grouping.RankGroupsPositions and Grouping.RankGroupsOrdered |
| Grouping.BatchGroups | script.js:126-151 | Definition of the batch groups; stated by Grouping.BatchGroupsShape, Grouping.BatchGroupsPositions and Grouping.BatchGroupsOrdered |
| Grouping.Group | script.js:126-183 | Definition of the grouped page; stated by Grouping.GroupItems, Grouping.GroupOrder, Grouping.GroupBatches and Grouping.GroupRanks |
| Grouping.Items | script.js:150-157 | Definition of the items' `data-idx` in document order; stated by Grouping.GroupItems and Selection.GroupInRange |
| Selection.Hides | script.js:186-192 | Definition of the search test; stated by Selection.SearchShows, Selection.SearchIgnoresCase and Session.Page.HandleSearch |
| Selection.Picked | script.js:205-209 | Definition of `selected`; stated by Selection.PickedCount, Selection.PickedMember, Selection.PickedSorted and Selection.PickEverything |
| Export.SerialIndex | script.js:218 | Definition of `slIdx`; stated by Export.SerialNumbers |
| Export.SetCell | script.js:233 | Definition of `row[slIdx] = idx + 1`; stated by Export.SetCellSpec |
| Export.DataRow | script.js:232-233 | Definition of a copied data row; stated by Export.DataRowCells |
| Export.HeadingRows | script.js:225-227 | Definition of the heading row; stated by Export.NominalRows |
| Export.HeadingMerges | script.js:241-244 | Definition of the heading merge; stated by Export.NominalLayout |
| Export.NominalOf | script.js:204-247 | Definition of the nominal; stated by Export.NothingSelected, Export.NominalRows, Export.SerialNumbers and Export.NominalLayout |
| Strings.Lower | script.js:154 | `toLowerCase`: the same length, each ASCII capital mapped to its small letter and every other character kept |
| Strings.Upper | script.js:104 | `toUpperCase`: the same length, each ASCII small letter mapped to its capital and every other character kept |
| Strings.TrimSpec | script.js:74 | The result of `trim` has no whitespace at either end, and it is the infix of the input left once the whitespace around it is dropped |
| Strings.TrimStartSpec | script.js:74 | The leading-whitespace pass drops exactly the whitespace prefix |
| Strings.TrimEndSpec | script.js:74 | The trailing-whitespace pass drops exactly the whitespace suffix |
| Strings.TrimEmpty | script.js:74 | A string trims to "" exactly when it is all whitespace, which is the `name.trim()` test |
| Strings.TrimTrimmed | script.js:216 | Trimming a string with no whitespace at its ends returns it unchanged, so trimming the heading again changes nothing |
| Strings.UpperKeepsTrimmed | script.js:77 | Upper-casing keeps a trimmed string trimmed |
| Strings.UpperIdempotent | script.js:77 | Upper-casing twice is upper-casing once |
| Strings.UpperKeepsDigits | script.js:104-107 | A digit needle occurs in the upper-cased string exactly when it occurs in the original |
| Strings.LexCompare | script.js:120 | The name comparison yields -1, 0 or 1, and 0 exactly for equal names |
| Strings.LexCompareAntisymmetric | script.js:120 | Swapping the arguments negates the name comparison |
| Strings.LexCompareTransitive | script.js:120 | The name comparison is transitive |
| Strings.ContainsFramed | script.js:104-107 | A needle without whitespace occurs in a string exactly when it occurs in the string's whitespace-framed core |
| Strings.UpperFramed | script.js:104 | Upper-casing keeps a whitespace-framed infix framed at the same offset |
| Sequences.IndexOf | script.js:151 | `indexOf`: -1 exactly when the element is absent, otherwise the first position holding it |
| Sequences.IndexOfDistinct | script.js:151 | In a list without repeats, `indexOf` of an element is its own position |
| Batches.BatchIndex | script.js:5 | Every batch has a place in `BATCH_ORDER`, the place that holds it |
| Batches.BatchIndexIsIndexOf | script.js:114 | The batch index equals `BATCH_ORDER.indexOf(batch)` |
| Batches.GetBatchByYear | script.js:103-109 | A number containing 2023 is batch C whatever other years it mentions. Without 2023 and without AP21 in any case: 2024 gives B2, else 2025 gives B1, else C |
| Batches.GetBatchAp21 | script.js:105 | AP21 in any mix of cases gives batch C |
| Batches.GetBatchEmpty | script.js:108 | The empty registration number gives the default batch C |
| Batches.GetBatchIgnoresTrim | script.js:103-109 | Trimming the registration number first never changes the batch |
| Batches.UpperTrimContains | script.js:104-107 | A pattern without whitespace occurs in the upper-cased trimmed number exactly when it occurs in the upper-cased number |
| Ingest.FindFrom | script.js:59-61 | The header search from position i returns the first matching header at or after i, or -1 when none matches |
| Ingest.FindIndex | script.js:59-61 | `findIndex` returns the first header that is a non-empty text containing a needle after lower-casing, or -1 when no header does |
| Ingest.IngestRows | script.js:67-90 | The records of the rows seen so far carry row indices from 1 up, strictly increasing |
| Ingest.IngestRowsSound | script.js:67-90 | Every record comes from a row that has data and a non-blank name cell, and is the record built from that row |
| Ingest.IngestComplete | script.js:67-90 | Every row that has data and a non-blank name cell yields its record |
| Ingest.IngestRowsComplete | script.js:67-90 | Every qualifying row among those seen so far has its record in the list |
| Ingest.NoQualifyingRows | script.js:71-74 | Rows that are all empty, or whose name cell is absent or blank, yield nothing |
| Ingest.NoNameColumnNoRecords | script.js:59-74 | A header row without a "name" column yields no records |
| Ingest.IngestRecords | script.js:74-87 | Each record's name is non-empty and trimmed, and its rank is trimmed and upper-case. It keeps its sheet, its row index (at least 1), its row and its sheet's header row |
| Ingest.RecordDefaults | script.js:75-77 | Rank and batch come from the record's own row and roles. The rank is "CDT" without a rank column, and the batch is C without a registration column |
| Ingest.RecordsHaveNameColumn | script.js:59-87 | A record exists only where its header row has a name column, so the header row is never empty |
| Ingest.RankNormalised | script.js:77 | The rank is always trimmed and has no lower-case ASCII letter |
| Ingest.BlankRankIsEmpty | script.js:77 | A rank cell holding only whitespace becomes the empty rank, not "CDT" |
| Ingest.IngestSheetOrdered | script.js:67-87 | The records of one sheet are in increasing row order and all carry that sheet |
| Ingest.AppendSheetOrdered | script.js:29-31 | Appending a later sheet's records keeps the list ordered by (sheet, row) |
| Ingest.IngestFilesOrdered | script.js:26-31 | The records of an upload are listed file after file in upload order, and by row within a file |
| Ingest.IngestFilesStep | script.js:29-31 | Loading one more file keeps the (file, row) order |
| Ingest.OrderedDistinct | script.js:151 | Records at different (sheet, row) places are different records, so the list has no repeats |
| Order.RankIndex | script.js:4 | A rank's place in `RANK_ORDER`, or -1 exactly when the rank is not listed |
| Order.RankIndexIsIndexOf | script.js:117 | The rank index equals `RANK_ORDER.indexOf(rank)` |
| Order.RankIndexExact | script.js:4 | The ranks of `RANK_ORDER` are distinct, so a rank has index k exactly when it is the k-th rank |
| Order.CompareTotal | script.js:113-121 | Any two records are comparable. They tie exactly when batch index, rank index and name all agree |
| Order.CompareTransitive | script.js:113-121 | The comparator is transitive |
| Order.UnknownRankFirst | script.js:117 | Within a batch, a rank outside `RANK_ORDER` sorts before every listed rank, SUO included |
| Order.Insert | script.js:113 | Insertion adds exactly the new record to the multiset of records |
| Order.SortCadets | script.js:113 | The sorted list is a permutation of `allCadets` |
| Order.InsertSorted | script.js:113-121 | Inserting into a sorted list keeps it sorted |
| Order.SortSorted | script.js:113-121 | The sorted list is non-decreasing by (batch index, rank index, name) |
| Order.WithKeyMember | script.js:113-121 | The records with a given key are exactly those of the list that have that key |
| Order.WithKeyAppend | script.js:113-121 | The records with a key in a concatenation are those of the first part, then those of the second |
| Order.InsertWithKey | script.js:113-121 | Insertion places the new record after the records of its own key and leaves other keys alone |
| Order.SortStable | script.js:113-121 | Records with equal keys keep their input order |
| Order.SortedUnique | script.js:113-121 | Two sorted lists that agree on the order of each key's records are equal |
| Order.SortUnique | script.js:113-121 | Every stable sort under this comparator gives the same list as the model's |
| Order.SortIdempotent | script.js:113-121 | Sorting a sorted list changes nothing |
| Order.InsertDistinct | script.js:113 | Inserting a new record into a list without repeats keeps it without repeats |
| Order.SortDistinct | script.js:113 | Sorting keeps a list free of repeats, so `indexOf` finds each record at its own place |
| Grouping.IndicesIn | script.js:150-151 | One `indexOf` per record of a group |
| Grouping.SortedCells | script.js:113-121 | Along the sorted roster, the (batch, rank) cell of each record never decreases |
| Grouping.PosInSpec | script.js:150-151 | The positions in a cell range are exactly those whose cell lies in the range, in increasing order |
| Grouping.PosSplit | script.js:138-140 | With non-decreasing cells, the positions of two adjacent cell ranges follow one another |
| Grouping.CellExact | script.js:126-140 | A record falls in the cell of batch b and the k-th rank exactly when it has that batch and rank |
| Grouping.CellShown | script.js:138-140 | A record's cell is one of some batch's rank-group slots exactly when its rank is in `RANK_ORDER` |
| Grouping.OfRankOfBatch | script.js:127-139 | Filtering by batch and then by rank is filtering by both |
| Grouping.IndicesOfCell | script.js:150-151 | On a list without repeats, `indexOf` of the filtered records gives their positions, in order |
| Grouping.RankGroupPositions | script.js:138-151 | The items of the rank group (b, k-th rank) are the sorted positions of the records of that batch and rank |
| Grouping.RankGroupsPositions | script.js:138-151 | Batch b's rank groups, taken in order, list the positions of that batch's records of listed ranks |
| Grouping.BatchGroupsPositions | script.js:126-151 | The items of all batch groups are, batch by batch, the positions of the records of listed ranks |
| Grouping.ShownUnfold | script.js:126 | The shown positions are those of C, then B2, then B1 |
| Grouping.ShownMembers | script.js:126-151 | A position is shown exactly when its cell is a rank-group slot |
| Grouping.ShownIncreasing | script.js:126-151 | Along a sorted roster the shown positions strictly increase |
| Grouping.ShownSpec | script.js:126-151 | Those positions are every position of a shown record, once each, in increasing order |
| Grouping.GroupItems | script.js:126-157 | On the sorted roster, the page's items are exactly the positions of records whose rank is in `RANK_ORDER`, strictly increasing |
| Grouping.RankGroupItems | script.js:139-151 | A rank group has one item per filtered record, each the position of a record of that batch and rank |
| Grouping.RankGroupsShape | script.js:138-140 | A rank group exists exactly for each listed rank that has records, and holds `indexOf` of those records |
| Grouping.BatchGroupsShape | script.js:126-128 | A batch group exists exactly for each listed batch that has records, and holds that batch's rank groups |
| Grouping.GroupBatches | script.js:127-128 | A batch group is shown exactly when some record has that batch |
| Grouping.GroupBatchForm | script.js:126-138 | Each shown batch group holds the rank groups of its batch's records |
| Grouping.GroupRanks | script.js:138-151 | Each shown rank group has a listed rank, is non-empty, and points only at records of its batch and rank |
| Grouping.GroupRankPresent | script.js:138-140 | A listed rank with records in batch b gets its rank group inside b's batch group |
| Grouping.UnknownRanksOnly | script.js:126-140 | A batch whose records all have unlisted ranks still shows its batch group, with no rank group |
| Grouping.RankGroupsOrdered | script.js:138 | Rank groups follow `RANK_ORDER`: later groups have strictly later ranks |
| Grouping.BatchGroupsOrdered | script.js:126 | Batch groups follow the order of the batches iterated |
| Grouping.GroupOrder | script.js:126-138 | Batch groups appear as C, B2, B1, and the rank groups inside each follow `RANK_ORDER` |
| Selection.Count | script.js:13-16 | The count never exceeds the number of items |
| Selection.SetVisible | script.js:194-202 | Select-all and deselect-all set each visible item's flag to the value and keep each hidden item's flag |
| Selection.PickedCount | script.js:205-209 | The number of records exported equals the count shown |
| Selection.PickedMember | script.js:205-209 | A record is exported exactly when it is the record behind some ticked item |
| Selection.PickedIn | script.js:205-209 | Every exported record is a record of the sorted roster |
| Selection.GroupInRange | script.js:151-157 | Every item's `data-idx` is a position in the roster the page was built from |
| Selection.PickedSorted | script.js:205-209 | Ticked items visited in document order give records in roster order |
| Selection.IncreasingUnique | script.js:205-209 | Two increasing lists with the same members are equal |
| Selection.PickEverything | script.js:126-157 | With every item ticked, the exported records are exactly the shown records in roster order |
| Selection.SearchShows | script.js:186-192 | The empty term hides nothing, and a name containing the term as typed is never hidden |
| Selection.SearchIgnoresCase | script.js:186-192 | Hiding depends neither on the case of the term nor on that of the name |
| Selection.LowerContains | script.js:187-190 | Lower-casing both sides keeps an occurrence |
| Selection.CountAllTrue | script.js:13-16 | With every box ticked, the count is the number of items |
| Selection.SelectAllVisible | script.js:194-197 | With nothing hidden, select-all ticks every item and the count becomes the number of items |
| Selection.CountSetVisible | script.js:194-202 | Select-all never lowers the count and deselect-all never raises it |
| Selection.SelectThenDeselect | script.js:194-202 | Of two select-all/deselect-all presses, the last wins |
| Export.Lift | script.js:229-232 | A read row written back keeps every cell: text stays text, and an undefined cell stays empty |
| Export.SetCellSpec | script.js:233 | Writing one cell changes only that cell, padding the row with holes up to it |
| Export.ColWidths | script.js:247 | One width entry per header, 15 where there is a header and a hole where the header row has one |
| Export.DataRows | script.js:231-235 | One data row per selected record, in selection order |
| Export.BuildNominal | script.js:204-247 | The pushed rows, the merges and the widths are the nominal of the heading and the selection, or none when nothing is selected |
| Export.PushDataRows | script.js:231-235 | The loop appends exactly the data rows, after the rows already built |
| Export.NothingSelected | script.js:211-214 | No selection gives no nominal |
| Export.NominalRows | script.js:216-235 | Rows: the heading row when the trimmed heading is non-empty, then `selected[0].headers` verbatim, then one row per selected record in order |
| Export.DataRowCells | script.js:231-234 | Data row k has k + 1 in the serial column and a copy of the record's cell everywhere else; without a serial column it is the record's row |
| Export.SerialNumbers | script.js:218-234 | With a serial column, the data rows are numbered 1..N in order |
| Export.NominalLayout | script.js:241-247 | A heading adds exactly one merge, row 0 from column 0 to `headers.length - 1`; without one there is none; the widths have `headers.length` entries |
| Export.HeadingMergeSpans | script.js:241-244 | With a non-empty header row, the heading merge spans at least one column and ends on the last header |
| Export.HeadingTrimmed | script.js:216-226 | The heading cell is the trimmed input, which has no whitespace at either end and which trimming again leaves unchanged |
| Session.FirstFailure | script.js:29-31 | The files before the first failing one all decode, and the one at the returned position fails |
| Session.FirstFailureAt | script.js:29-31 | The first failure is the unique position before which all files decode and at which one fails |
| Session.BuildPage | script.js:113-183 | The page built is the sorted roster, its grouped items and unset flags; the headers stay named and the items point into the roster |
| Session.SortedNamed | script.js:113 | Sorting keeps every record, hence every record's header row |
| Session.DisplayedPage | script.js:113-157 | The sorted roster keeps named header rows, and every item points into it |
| Session.UploadedPage | script.js:18-157 | After a complete upload the roster is a permutation of the records, sorted, without repeats, and shows exactly the records of listed ranks in increasing order |
| Session.Page.constructor | script.js:1-2 | The page starts with no records and no items |
| Session.Page.LoadExcelFile | script.js:42-101 | A file that fails to decode rejects. Otherwise the sheet's records are appended in row order, and `loadedCount` is their number. Nothing else changes |
| Session.Page.LoadFiles | script.js:26-31 | `allCadets` is reset and then holds the records of the files before the first failing one |
| Session.Page.HandleFileUpload | script.js:18-40 | No file changes nothing. Otherwise `allCadets` is reset and filled in upload order; a failure stops the upload without rebuilding the page, and success rebuilds it |
| Session.Page.DisplayCadets | script.js:111-184 | `displayedCadets` becomes the sorted records and the items become the grouped positions, all unticked and visible |
| Session.Page.HandleSearch | script.js:186-192 | Each item is hidden exactly when its lower-cased name lacks the lower-cased term; ticks are untouched |
| Session.Page.MarkVisible | script.js:195 | Visible items take the flag and hidden ones keep theirs |
| Session.Page.SelectAll | script.js:194-197 | Visible items become ticked and hidden ones keep theirs; the count returned is the new count, never lower than before |
| Session.Page.DeselectAll | script.js:199-202 | Visible items become unticked and hidden ones keep theirs; the count returned is the new count, never higher than before |
| Session.Page.ClickItem | script.js:164-174 | A click flips exactly that item's tick and returns the new count |
| Session.Page.SelectedCount | script.js:13-16 | The count is the number of ticked items |
| Session.Page.SelectedCadets | script.js:205-209 | The records behind the ticked items, in document order |
| Session.Page.GenerateNominal | script.js:204-247 | No nominal exactly when nothing is ticked. Otherwise there is one row per ticked record after the heading and header rows, and the heading merge never ends before column 0 |

## Left out

- `keepalive.js` is not part of this model. It is a periodic network ping on timers.
- The spreadsheet codec and the file reader (`FileReader`, `XLSX.read`, `sheet_to_json`, `aoa_to_sheet`, `XLSX.writeFile`) are left out.
  - A decoded first sheet is an input: a list of rows of optional text cells.
  - A file the codec cannot read is `None`.
  - The nominal is returned as its rows, merges and widths rather than written to a file.
- The worksheet handle kept in each record is modelled by the file's position in the upload.
- The DOM is left out: element creation, `innerHTML`, class names, batch and rank header texts, status text, `alert`, `console.log`, and the listener wiring at lines 7-11.
  - The page's items are modelled as the list of their `data-idx` values in document order, with parallel ticked and hidden flags.
  - `dataset.name` is modelled as the name of the record at that position.
  - `parseInt` of `data-idx` is the identity, because the attribute is always written from an integer.
- The row click and the checkbox `change` listener are modelled together by `Session.Page.ClickItem`: either way the box flips once and the count is refreshed. Browser event dispatch is left out.
- The timestamped file name (line 251) depends on the clock and is left out.
- `localeCompare` is replaced by comparison by code point (`Strings.LexCompare`). Locale collation is not reproducible.
- `toUpperCase` and `toLowerCase` are modelled on ASCII letters only. Full Unicode case mapping is left out.
- The asynchronous `Promise` sequencing is modelled as sequential calls. An error thrown inside the codec is modelled only as a file that fails to decode.
- `dobIdx`, `enrollIdx` and `startRow` (lines 219-220, 223) are computed and never used, so they are left out.
- Cell values other than text are left out. `sheet_to_json` with `raw: false` yields text, and the renumbered serial cell is the only number written.
- Selection.Count: only its bound is stated in its contract. What it counts is stated by Session.Page.SelectedCount, Selection.CountAllTrue and Selection.PickedCount.
- Grouping.IndicesIn: its contract states only the length. Its contents are stated by Grouping.IndicesOfCell and Grouping.RankGroupPositions.
- Session.Page.GenerateNominal: states the nominal's rows through Export.NominalOf. The alert texts are not modelled.
