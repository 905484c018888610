# PatriScan asset store and import pipeline, in Dafny

PatriScan is an Ionic/React app for taking inventory of public assets
("bens"): every asset has an asset code (`numero_patrimonio`), a scan code
(`br_code`), a classification, a value and a state of conservation, and
sits in a room (ambiente) of a block (bloco) on a campus. The app keeps its
assets in a local SQLite table (BEM) behind `DatabaseService`, fills it from
spreadsheets and PDF listings through a series of import screens, and shows
it in list, search, inventory and home screens.

This project models that core:

- `store.dfy` (`Store`): the BEM table as a value. It covers the schema's
  NOT NULL and UNIQUE constraints, AUTOINCREMENT, `addBem`'s INSERT,
  `updateBem`'s UPDATE and the insert-or-update loop of `importBens`.
- `query.dfy` (`Query`): the SELECTs of `getBens`, `searchBens`,
  `getBensFiltrados` and `getInventarioStats`. It covers the location
  LEFT JOINs, SQLite `LIKE` with its ASCII case folding, `ORDER BY
  numero_patrimonio`, `LIMIT … OFFSET`, `hasMore`, and the rounded
  percentage.
- `service.dfy` (`Service`): `DatabaseService` as a class `BemDatabase`
  whose rows the methods update.
  - The WHERE clause is built as the source builds it, one filter at a
    time.
  - Each query method is proved equal to its `Query` specification.
- `importcommon.dfy`, `pdftext.dfy`: what the import screens share.
  - The CSV delimiter and the CSV error list.
  - The dd/mm/yyyy date handling and the state-of-conservation keywords.
  - The currency cleaning and the `PAT-` scan code.
  - The split of extracted PDF text into headers and rows (a loop, as
    `processExtractedText` is written) and the required-header check.
- `page1.dfy` … `page6.dfy`: the five import screens (ImportacaoPage,
  ImportacaoPage2/3/4/6), each with its own header handling, currency
  reading and `transformToBemModel`.
  - `page6.dfy` also has the paged asset list (`carregarBens`) and
    `startImport`, both as methods on state.
- `validate.dfy` (`Validate`): `validateBem`, the six checks pushed in order.
- `inventario.dfy` (`Inventario`): the in-memory search of the inventory
  screen.
- `home.dfy` (`Home`): the home screen.
  - Inventories are grouped by year, newest year first, and each group is
    sorted by start date, newest first.
  - The year search, the completion percentage and the status badge.
- `cadastro.dfy` (`Cadastro`): the new-asset form.
  - Its validation, the duplicate check against the stored scan codes and
    the INSERT.
  - The screen state (alert, loading flag, success flag) as a class.
- `text.dfy`, `numbers.dfy`, `models.dfy`, `wrappers.dfy`, `seqs.dfy`: the
  JavaScript primitives the core relies on.
  - `trim`, `toLowerCase`/`toUpperCase`, NFD accent stripping,
    `includes`, `replace` (first match) and `split`.
  - `Array.prototype.map` and `filter`, with the order, multiplicity and
    count facts the filters of the screens and the queries rely on.
  - `parseFloat`, `||` on numbers, `Math.round` of a percentage and
    `toString` of a number.
  - The `EstadoConservacao` enum.

Values that come from outside are parameters of the model:
- the rows the CSV parser returns;
- the text the PDF reader extracts;
- the date of today;
- the `Date` parse used to order and compare dates;
- whether a store call of the registration screen, or the reload of the
  asset list, fails.

`parseFloat` is modelled on exact rational numbers, with NaN and the
infinities as separate cases.

## Model

| member | source | states |
|---|---|---|
| Models.EstadoNameRoundTrip | src/models/common.ts:10-16 | reading back the stored name of a state of conservation gives that state |
| Models.EstadoFromName | src/models/common.ts:10-16 | a name is accepted only when it is the stored name of the state returned |
| Store.BindBemDefaults | src/services/DatabaseService.ts:480-494 | the bound state defaults to BOM, `conferido` is stored as 1 or 0, and an empty scan code, commitment or invoice is bound as NULL |
| Store.NotNullViolation | src/services/DatabaseService.ts:135-148 | the INSERT is refused by NOT NULL exactly when the classification or the value is NULL |
| Store.FindNumeroUnique | src/services/DatabaseService.ts:138 | in a table that keeps its constraints, looking up a stored code finds that very row |
| Store.Insert | src/services/DatabaseService.ts:469-502 | the INSERT succeeds exactly when both NOT NULL columns have values, the code is new and the scan code clashes with no row; on success it appends the new row with the next id and advances the counter |
| Store.InsertValid | src/services/DatabaseService.ts:135-148 | a successful INSERT keeps codes and scan codes unique and ids increasing below the counter |
| Store.UpdateFrame | src/services/DatabaseService.ts:504-535 | an UPDATE keeps the number of rows, the counter, every id and every code, and leaves every row with another id unchanged |
| Store.UpdateValid | src/services/DatabaseService.ts:504-535 | a successful UPDATE keeps the table's constraints |
| Store.Update | src/services/DatabaseService.ts:504-535 | an undefined id or one no row has succeeds and changes nothing; otherwise the UPDATE fails exactly when the classification or the value is NULL or another row holds the scan code, fails only with those errors, and on success rewrites exactly that row from the bound values, keeping the row count and the counter |
| Store.BindBem | src/services/DatabaseService.ts:514-528 | the classification, code, description and date are bound as given, beside the defaults below |
| Store.AppendValid | src/services/DatabaseService.ts:135-148 | appending a row with a new code, an unheld scan code and the counter's id keeps the constraints |
| Store.FindIdUnique | src/services/DatabaseService.ts:511 | in a table that keeps its constraints, `WHERE id_bem = ?` with a stored id finds that very row |
| Store.Attempt | src/services/DatabaseService.ts:554-559 | one pass runs the UPDATE of the row holding the code, with that row's id, or else the INSERT; on success the code is in the table |
| Store.Detail | src/services/DatabaseService.ts:561-566 | a failure is recorded under the code, or "N/A" without one, with the error text, or "Erro desconhecido" without one |
| Store.ImportStep | src/services/DatabaseService.ts:553-567 | a failed pass leaves the table as it was; a successful one leaves the code in the table |
| Store.StepOutcome | src/services/DatabaseService.ts:553-567 | a pass fails exactly when the classification or the value would be NULL or a row other than the one holding the code has the scan code |
| Store.ImportFold | src/services/DatabaseService.ts:547-567 | after the loop every row has been counted as written or recorded as failed |
| Store.Advance | src/services/DatabaseService.ts:552-566 | each pass adds one to the count of written plus failed rows |
| Store.FoldSnoc | src/services/DatabaseService.ts:551-567 | one more row of the batch runs one more pass on the state the rows before it left |
| Store.ImportBens | src/services/DatabaseService.ts:547-575 | `importBens` keeps a valid table valid, and a result reporting success means every code of the batch is in the table |
| Store.ImportValid | src/services/DatabaseService.ts:547-575 | the import loop keeps the table's constraints, whatever rows fail |
| Store.ImportStepUpsert | src/services/DatabaseService.ts:554-559 | a successful pass on a stored code keeps the row count, the counter, the row's id and code, and in a valid table rewrites exactly that row from the asset; on a new code it appends the row the INSERT builds, with the next id |
| Store.ImportCounts | src/services/DatabaseService.ts:569-574 | imported plus failed rows equal the rows given, the error count is the number of details, and success means no row failed |
| Store.ImportStoresAll | src/services/DatabaseService.ts:551-567 | after an import without errors, every imported code is in the table |
| Store.ImportNoInsert | src/services/DatabaseService.ts:551-567 | importing rows whose codes are all stored adds no row and does not move the counter |
| Store.ImportTwice | src/services/DatabaseService.ts:547-575 | importing the same rows again after a clean import adds no row |
| Store.RewriteNoOp | src/services/DatabaseService.ts:554-559 | importing an asset whose row already holds exactly what the import writes changes nothing and succeeds |
| Store.StepStores | src/services/DatabaseService.ts:554-559 | a successful pass leaves the row holding the code with exactly what the import writes for the asset |
| Store.StepKeepsStored | src/services/DatabaseService.ts:554-559 | a pass on another code leaves a stored asset's row as it was |
| Store.StepKeepsNumero | src/services/DatabaseService.ts:554-559 | no pass removes a code from the table |
| Store.ImportStoresEach | src/services/DatabaseService.ts:551-567 | after a clean import of distinct codes, each asset of the batch is stored as the import wrote it |
| Store.RefoldNoOp | src/services/DatabaseService.ts:551-567 | importing assets that are all stored as the import writes them changes nothing, writes every row and records no failure |
| Store.ImportIdempotent | src/services/DatabaseService.ts:547-575 | importing a batch of distinct codes a second time after a clean import leaves the table unchanged and reports success with every row written and no error |
| Store.Message | src/services/DatabaseService.ts:561-566 | a constraint violation always has a non-empty error text |
| Query.Joined | src/services/DatabaseService.ts:797-815 | the joined row keeps the stored row; the room name is present exactly when the row's room exists; a campus is found only through a block and a room |
| Query.LikeLeadingPercent | src/services/DatabaseService.ts:747-751 | `'%' + q` matches a text exactly when `q` matches one of its suffixes |
| Query.LikePrefix | src/services/DatabaseService.ts:753-756 | `t + '%'`, for a `t` without wildcards, matches exactly the texts that start with `t`, ASCII letter case aside |
| Query.LikeContains | src/services/DatabaseService.ts:747-751 | `'%' + t + '%'`, for a `t` without wildcards, matches exactly the texts that contain `t`, ASCII letter case aside |
| Query.SearchIsSubstring | src/services/DatabaseService.ts:747-751 | the search of `searchBens` keeps a row exactly when its description, code, scan code or classification contains the search text |
| Query.FiltradosSearchWider | src/services/DatabaseService.ts:998-1008 | the search of `getBensFiltrados` keeps every row `searchBens` keeps, and any other row it keeps matches by its room name |
| Query.ClassFilterMeaning | src/services/DatabaseService.ts:1010-1013 | the classification filter is a prefix match in `searchBens` and an exact match in `getBensFiltrados`, so the second is the narrower |
| Query.NoFilterMatchesAll | src/services/DatabaseService.ts:744-781 | with no filter set, every row matches |
| Query.Select | src/services/DatabaseService.ts:744-781 | the selection keeps only stored rows that match the filters, and keeps every stored row that matches |
| Query.SelectMeaning | src/services/DatabaseService.ts:744-805 | the selection is the joined rows that match, in table order, each as often as it occurs, and the rows it drops are exactly those that do not match |
| Query.SelectSnoc | src/services/DatabaseService.ts:797-805 | one more stored row is appended to the selection exactly when it matches |
| Query.SelectNoFilter | src/services/DatabaseService.ts:744-781 | with no filter set, the selection is every stored row, joined |
| Query.LexTotal | src/services/DatabaseService.ts:806 | any two codes are ordered one way or the other by SQLite's text comparison |
| Query.LexAntisymmetric | src/services/DatabaseService.ts:806 | the text comparison is strict: no two codes precede each other and no code precedes itself |
| Query.InsertByNumero | src/services/DatabaseService.ts:806 | inserting into a list sorted by code keeps it sorted and adds exactly that row |
| Query.SortByNumero | src/services/DatabaseService.ts:806 | `ORDER BY numero_patrimonio` gives a sorted permutation of the selection |
| Query.Window | src/services/DatabaseService.ts:807 | `LIMIT ? OFFSET ?` takes at most `limit` consecutive rows starting at the offset, clipped to the list |
| Query.WindowConsecutive | src/services/DatabaseService.ts:807 | two consecutive windows together are the window of their combined length |
| Query.PageOf | src/services/DatabaseService.ts:742-821 | a page has at most `pageSize` rows, taken consecutively from `(page - 1) * pageSize`, and its total is the size of the whole selection |
| Query.PageOfSorted | src/services/DatabaseService.ts:806-807 | every page of a sorted selection is sorted |
| Query.HasMoreMeaning | src/services/DatabaseService.ts:820 | `hasMore` holds exactly when rows remain after this page, that is when `page * pageSize` is below the total |
| Query.ListPageContents | src/services/DatabaseService.ts:737-826 | a listed page holds at most `pageSize` stored rows that match the filters, sorted by code; its total is the count of all matches, which with the count of rows that do not match makes up the whole table |
| Query.PageRowsMatch | src/services/DatabaseService.ts:806-807 | every row on a listed page is a stored row that matches the filters |
| Query.AllPageIsUnfiltered | src/services/DatabaseService.ts:371-401 | `getBens` lists the same page as a search with no filter set |
| Query.StatsPercent | src/services/DatabaseService.ts:849-852 | the percentage checked is between 0 and 100, is 0 for an empty table, and is the checked share of all rows rounded to the nearest integer |
| Query.StatsExtremes | src/services/DatabaseService.ts:849-852 | all rows checked gives 100 and none checked gives 0 |
| Service.ClauseMeaning | src/services/DatabaseService.ts:744-781 | the conditions appended to the WHERE clause hold on a row exactly when every filter that is set holds on it |
| Service.AddedMeaning | src/services/DatabaseService.ts:744-781 | the conditions each single filter appends hold exactly when that filter holds |
| Service.WhereClause | src/services/DatabaseService.ts:744-781 | the clause built one filter at a time holds exactly on the rows that match the filters |
| Service.AppendIdConds | src/services/DatabaseService.ts:758-781 | the state and id filters are appended in the source's order, each only when it is set |
| Service.BemDatabase.constructor | src/services/DatabaseService.ts:135-148 | a fresh database has no rows, the counter at 1, and keeps its constraints |
| Service.BemDatabase.AddBem | src/services/DatabaseService.ts:469-502 | the stored table becomes the table after the INSERT and the new id is returned, or on a violation the table is unchanged and the error returned |
| Service.BemDatabase.UpdateBem | src/services/DatabaseService.ts:504-535 | the stored table becomes the table after the UPDATE as `Store.Update` states it, or on a violation is unchanged and the error is returned |
| Service.BemDatabase.GetBemByPatrimonio | src/services/DatabaseService.ts:424-445 | an asset is found exactly when some row holds the code, and it is that row, joined |
| Service.BemDatabase.ImportOne | src/services/DatabaseService.ts:552-566 | one pass of the loop runs the UPDATE or the INSERT, and leaves the table unchanged when that fails |
| Service.BemDatabase.ImportBens | src/services/DatabaseService.ts:547-575 | the stored table and the result are those of `Store.ImportBens`, and the constraints are kept |
| Service.BemDatabase.ImportLoop | src/services/DatabaseService.ts:551-567 | the loop leaves the table, the write count and the failure details that the insert-or-update fold gives |
| Service.BemDatabase.SelectRows | src/services/DatabaseService.ts:744-794 | the rows the WHERE clause keeps are the selection of the filters |
| Service.BemDatabase.SelectRowsStep | src/services/DatabaseService.ts:797-805 | each row read is kept exactly when it matches the WHERE clause |
| Service.BemDatabase.SearchBens | src/services/DatabaseService.ts:737-826 | the page returned is the listed page of the `searchBens` filters |
| Service.BemDatabase.GetBensFiltrados | src/services/DatabaseService.ts:986-1103 | the page returned is the listed page of the `getBensFiltrados` filters |
| Service.BemDatabase.GetBens | src/services/DatabaseService.ts:371-401 | the page returned is the unfiltered page at that offset and limit |
| Service.BemDatabase.GetInventarioStats | src/services/DatabaseService.ts:828-862 | the figures returned are the counts, total value and percentage of the stored rows |
| ImportCommon.DelimiterMeaning | src/pages/Importacao/ImportacaoPage6.tsx:181-182 | the delimiter is `;` exactly when a semicolon occurs before the first line break, and `,` otherwise |
| ImportCommon.SlashToIso | src/pages/Importacao/ImportacaoPage6.tsx:208-219 | a dd/mm/yyyy date becomes a yyyy-mm-dd date |
| ImportCommon.IsoToSlash | src/pages/Importacao/ImportacaoPage6.tsx:208-219 | a yyyy-mm-dd date becomes a dd/mm/yyyy date |
| ImportCommon.SlashIsoRoundTrip | src/pages/Importacao/ImportacaoPage6.tsx:208-219 | converting to yyyy-mm-dd and back gives the same date, in either direction |
| ImportCommon.TrailingDate | src/pages/Importacao/ImportacaoPage6.tsx:239-243 | a date found in a description is a dd/mm/yyyy date at its very end |
| ImportCommon.TrailingDateMeaning | src/pages/Importacao/ImportacaoPage6.tsx:239-243 | a description ending in a dd/mm/yyyy date yields that date; ten final characters that are no such date yield none |
| ImportCommon.DetermineEstadoCases | src/pages/Importacao/ImportacaoPage6.tsx:221-236 | an empty text gives BOM; otherwise the first of "excelente", "bom", "regular" and "péssimo"/"pessimo" that occurs, letter case aside, decides among EXCELENTE, BOM, REGULAR and PESSIMO, and BOM when none does |
| ImportCommon.DetermineEstadoRuimIsBom | src/pages/Importacao/ImportacaoPage6.tsx:221-236 | "RUIM" is read as BOM, since only EXCELENTE, BOM, REGULAR and PESSIMO are ever produced |
| ImportCommon.KeepNumeric | src/pages/Importacao/ImportacaoPage6.tsx:340 | the cleaned text is no longer than the amount and holds only digits, commas, dots and minus signs |
| ImportCommon.KeepNumericKeeps | src/pages/Importacao/ImportacaoPage6.tsx:340 | a text of only those characters is left as it is |
| ImportCommon.KeepNumericIdempotent | src/pages/Importacao/ImportacaoPage6.tsx:340 | cleaning twice is cleaning once |
| ImportCommon.KeepNumericNone | src/pages/Importacao/ImportacaoPage6.tsx:340 | a text without any of those characters is cleaned to nothing |
| ImportCommon.ParseCurrencyKeepDotsWhole | src/pages/Importacao/ImportacaoPage6.tsx:339-340 | a whole number reads as itself, and a text without digits or separators reads as 0 |
| ImportCommon.BrCodeMeaning | src/pages/Importacao/ImportacaoPage6.tsx:255 | the scan code is "PAT-" followed by the asset code, or "PAT-SEM-CODIGO" when there is no code |
| ImportCommon.MissingHeadersMeaning | src/pages/Importacao/ImportacaoPage2.tsx:189-200 | the missing headers are exactly the required ones that are not among the headers read |
| ImportCommon.HeaderErrors | src/pages/Importacao/ImportacaoPage2.tsx:189-200 | one line-0 error per missing header, naming it, in order |
| ImportCommon.CheckHeadersMeaning | src/pages/Importacao/ImportacaoPage2.tsx:179-204 | the rows are confirmed exactly when every required header is present; otherwise each error names a required header that is absent |
| ImportCommon.ReadPdf | src/pages/Importacao/ImportacaoPage2.tsx:175-205 | reading fails exactly when no header line was extracted; otherwise the required headers are checked |
| ImportCommon.ProcessPdfFileMeaning | src/pages/Importacao/ImportacaoPage2.tsx:175-205 | the file fails exactly when its text is blank; otherwise it is confirmed exactly when all eight required headers are present, and each error names a missing one |
| ImportCommon.ProcessPdfFileRows | src/pages/Importacao/ImportacaoPage.tsx:242-255 | every confirmed row has a value and is keyed by exactly the trimmed headers |
| ImportCommon.CsvErrors | src/pages/Importacao/ImportacaoPage2.tsx:282-292 | one error entry per parse error, in order, carrying its line and message |
| ImportCommon.ProcessCsv | src/pages/Importacao/ImportacaoPage2.tsx:251-302 | the rows are confirmed as parsed exactly when the parser reported no error; otherwise there are as many error entries as parse errors |
| PdfText.KeepNonBlankMembers | src/pages/Importacao/ImportacaoPage2.tsx:351 | the kept lines are the non-blank ones, in their order, each as often as it occurs |
| PdfText.JoinBlank | src/pages/Importacao/ImportacaoPage2.tsx:351 | text is blank exactly when each of its lines is blank |
| PdfText.NonBlankLinesEmpty | src/pages/Importacao/ImportacaoPage2.tsx:351 | no line survives exactly when the text is blank |
| Seqs.Map | src/pages/Importacao/ImportacaoPage6.tsx:280 | `map` keeps the length and maps each element in place; it serves for rows and for header cells alike |
| PdfText.CleanAllMembers | src/pages/Importacao/ImportacaoPage3.tsx:222 | a cleaned header is present exactly when some header read cleans to it |
| PdfText.ZipRowKeys | src/pages/Importacao/ImportacaoPage2.tsx:356 | a row has exactly the headers as keys |
| PdfText.ZipRowValue | src/pages/Importacao/ImportacaoPage2.tsx:356 | the value under a header is the trimmed piece at its position, or "" when the line has fewer pieces; a later repeated header wins |
| PdfText.KeepRowsMembers | src/pages/Importacao/ImportacaoPage2.tsx:358-362 | the kept rows are those with a non-empty value, in their order and as often as they occur, and the rows dropped are exactly the others |
| PdfText.ZipLines | src/pages/Importacao/ImportacaoPage2.tsx:353-357 | one row per data line, in order, zipped with the headers |
| PdfText.ExtractedFails | src/pages/Importacao/ImportacaoPage2.tsx:350-363 | extraction finds no header line exactly when the text is blank |
| PdfText.ExtractedRows | src/pages/Importacao/ImportacaoPage2.tsx:350-363 | the rows kept are the zipped data lines that have a value, in line order and as often as they occur, each with exactly the headers as keys; kept and dropped rows together are one per data line |
| PdfText.ZipRowJoinWide | src/pages/Importacao/ImportacaoPage2.tsx:354-356 | a line made of cells separated by wide gaps gives each header its own cell back |
| PdfText.BuildRow | src/pages/Importacao/ImportacaoPage2.tsx:355-356 | the `forEach` over the headers builds the zipped row |
| PdfText.BuildRows | src/pages/Importacao/ImportacaoPage2.tsx:353-357 | the loop over the data lines builds one zipped row per line |
| PdfText.ProcessExtractedText | src/pages/Importacao/ImportacaoPage2.tsx:350-363 | the loop computes exactly the headers and kept rows that the extraction specifies |
| Page6.ProcessCsv | src/pages/Importacao/ImportacaoPage6.tsx:178-204 | the rows are confirmed as parsed exactly when the parser reported no error; otherwise the file is dropped without a message |
| Page6.ParseDateMeaning | src/pages/Importacao/ImportacaoPage6.tsx:208-219 | a date is produced exactly for a dd/mm/yyyy text, and it is yyyy-mm-dd and converts back to the text |
| Page6.AcquisitionDateMeaning | src/pages/Importacao/ImportacaoPage6.tsx:239-243 | a date at the end of the description wins, then a valid "DATA AQU" cell, then today |
| Page6.SampleDateFromDescription | src/pages/Importacao/ImportacaoPage6.tsx:239-243 | a description ending in "C04/03/2008" gives 2008-03-04 |
| Page6.SampleDateFallsBack | src/pages/Importacao/ImportacaoPage6.tsx:239-243 | a one-digit day at the end of the description and an empty date cell give today |
| Page6.TransformCode | src/pages/Importacao/ImportacaoPage6.tsx:247-255 | the stored code is the row's code trimmed, so it is non-empty and trimmed, and the scan code is "PAT-" before the code as read |
| Page6.TransformDescricao | src/pages/Importacao/ImportacaoPage6.tsx:248 | the description is the description cell trimmed, or "" without one |
| Page6.TransformToBem | src/pages/Importacao/ImportacaoPage6.tsx:238-260 | the state never is RUIM, the asset is unchecked, and both ids are 1 |
| Page6.ValidRowsMembers | src/pages/Importacao/ImportacaoPage6.tsx:269-271 | a row is imported exactly when its code is not blank; all rows are kept exactly when all have codes |
| Page6.ValidRowsOrder | src/pages/Importacao/ImportacaoPage6.tsx:269-276 | the rows with a code are kept in their order and as often as they occur, and the skipped rows are exactly those without one |
| Page6.BlankCodeSkipped | src/pages/Importacao/ImportacaoPage6.tsx:269-271 | a row with a missing or blank code is skipped |
| Page6.TransformAll | src/pages/Importacao/ImportacaoPage6.tsx:280 | each valid row becomes one asset, in order |
| Page6.ImportedCodes | src/pages/Importacao/ImportacaoPage6.tsx:269-280 | the assets handed to the import are one per row with a code, in row order, each made from its row and carrying that row's code trimmed, which is non-empty |
| Page6.Scrolled | src/pages/Importacao/ImportacaoPage6.tsx:99-125 | after loading pages 1 to k, the list is on page k with the total of the whole list |
| Page6.NextPage | src/pages/Importacao/ImportacaoPage6.tsx:107-115 | appending page k to the first k - 1 pages gives the first k * pageSize assets |
| Page6.ScrolledPrefix | src/pages/Importacao/ImportacaoPage6.tsx:99-125 | after scrolling to page k, the list shows the first k * pageSize assets of the sorted selection |
| Page6.BensList.constructor | src/pages/Importacao/ImportacaoPage6.tsx:99-125 | the list starts empty, on page 1, with pages of 20 |
| Page6.BensList.CarregarBens | src/pages/Importacao/ImportacaoPage6.tsx:99-125 | page 1 replaces the list and later pages append to it, the total and `hasMore` are taken from the result, and a failure empties the list |
| Page6.StartImport | src/pages/Importacao/ImportacaoPage6.tsx:264-300 | the skipped count is the number of rows without a code, the others are imported (only when there are some), and the list is set to the reloaded first page |
| Page6.ImportRows | src/pages/Importacao/ImportacaoPage6.tsx:269-287 | the skipped count is the number of rows without a code, the success count that of the rows imported, and the table is the one after importing the valid rows |
| Page6.ReloadFirstPage | src/pages/Importacao/ImportacaoPage6.tsx:290-292 | the list is set to the first page of the unfiltered listing, or emptied when the reload fails |
| Page2.CompactToIso | src/pages/Importacao/ImportacaoPage2.tsx:207-230 | a ddmmyyyy date becomes a yyyy-mm-dd date |
| Page2.ParseDateMeaning | src/pages/Importacao/ImportacaoPage2.tsx:207-230 | a date is produced exactly for a dd/mm/yyyy or a ddmmyyyy text, and it is yyyy-mm-dd |
| Page2.FormatsAgree | src/pages/Importacao/ImportacaoPage2.tsx:207-230 | the slashed and the compact spelling of a date give the same date, which converts back to the slashed text |
| Page2.TransformHeaderIsTrim | src/pages/Importacao/ImportacaoPage2.tsx:264-279 | each CSV header is mapped to its trimmed text |
| Page2.HeadersMapIdentity | src/pages/Importacao/ImportacaoPage2.tsx:266-277 | every entry of the header map maps a name to itself |
| Page2.AcquisitionDateMeaning | src/pages/Importacao/ImportacaoPage2.tsx:304-324 | a date at the end of the description wins, then a slashed or compact "DATA AQU" cell, then today |
| Page2.SampleCompactDate | src/pages/Importacao/ImportacaoPage2.tsx:207-230 | "04032008" in the date cell gives 2008-03-04 |
| Page2.TransformCode | src/pages/Importacao/ImportacaoPage2.tsx:304-336 | the code is stored as read, and the scan code is "PAT-" followed by it, or "PAT-SEM-CODIGO" without one |
| Page2.TransformEstado | src/pages/Importacao/ImportacaoPage2.tsx:232-249 | the state is read from "CONSERVAÇÃO", or from "ESTADO" when that is empty, and never is RUIM |
| Page2.TransformToBem | src/pages/Importacao/ImportacaoPage2.tsx:304-336 | the description is kept as read, the room is SALA_201ET, the asset is unchecked, and both ids are 1 |
| Page4.MapKeysAreRequired | src/pages/Importacao/ImportacaoPage4.tsx:62-71 | the PDF labels of the key map are exactly the eight required headers, in order |
| Page4.NormalizeUntouched | src/pages/Importacao/ImportacaoPage4.tsx:74-80 | a header with none of the three patterns and no surrounding spaces is left as it is |
| Page4.NormalizeRepairs | src/pages/Importacao/ImportacaoPage4.tsx:74-80 | the three run-together labels are repaired |
| Page4.NormalizeSteps | src/pages/Importacao/ImportacaoPage4.tsx:74-80 | the header is the three first-match replacements in order, then trimmed |
| Page4.NormalizeNotIdempotent | src/pages/Importacao/ImportacaoPage4.tsx:78 | the already correct "AQUISIÇÃO CONS." is turned into "AQUISIÇÃO CONS. CONS.", so normalising twice differs from once |
| Page4.NormalizeKeepsOtherKeys | src/pages/Importacao/ImportacaoPage4.tsx:62-80 | every required header but the acquisition date survives the normalisation |
| Page4.ValidateHeaders | src/pages/Importacao/ImportacaoPage4.tsx:286-291 | one message per missing key of the map |
| Page4.ValidateHeadersMeaning | src/pages/Importacao/ImportacaoPage4.tsx:286-291 | no message exactly when every required header is present; each message names a missing one |
| Page4.ExactHeadersRejected | src/pages/Importacao/ImportacaoPage4.tsx:209-224 | a PDF whose header line is exactly the required headers is rejected, with "AQUISIÇÃO CONS." reported missing |
| Page4.NormalizedRequired | src/pages/Importacao/ImportacaoPage4.tsx:74-80 | normalising the required headers changes only the acquisition date |
| Page4.OnlyOneMissing | src/pages/Importacao/ImportacaoPage4.tsx:286-291 | when exactly one required header is absent, it is the only one reported |
| Page4.MessageErrors | src/pages/Importacao/ImportacaoPage4.tsx:213-224 | each message becomes a line-0 error, in order |
| Page4.HeaderCheckIsCommon | src/pages/Importacao/ImportacaoPage4.tsx:209-229 | this screen's check gives what the shared required-header check gives |
| Page4.MessagesAreErrors | src/pages/Importacao/ImportacaoPage4.tsx:213-224 | the errors built from the messages are the shared header errors |
| Page4.ProcessPdfFileFails | src/pages/Importacao/ImportacaoPage4.tsx:209-229 | the file fails exactly when its text is blank |
| Page4.ParseCurrencyAgrees | src/pages/Importacao/ImportacaoPage4.tsx:366-370 | the amount is the dot-keeping reading with NaN turned into 0, so it is never NaN |
| Page4.ParseCurrencyWhole | src/pages/Importacao/ImportacaoPage4.tsx:366-370 | a whole number reads as itself |
| Page4.TransformFallsBack | src/pages/Importacao/ImportacaoPage4.tsx:293-314 | each mapped field takes the PDF label's cell, or the model key's cell when that is empty |
| Page4.TransformDefaults | src/pages/Importacao/ImportacaoPage4.tsx:293-314 | with both cells empty the code is "", the date today, the value 0 and the texts "" |
| Page4.TransformToBem | src/pages/Importacao/ImportacaoPage4.tsx:293-314 | the scan code follows the stored code, the state is BOM, the value is never NaN, and both ids are 1 |
| Page3.StripAccentsPlain | src/pages/Importacao/ImportacaoPage3.tsx:108-112 | stripping leaves no accented letter and no combining mark |
| Page3.UpperCapital | src/pages/Importacao/ImportacaoPage3.tsx:108-112 | upper-casing leaves no lower-case letter, and keeps a plain text plain |
| Page3.NormalizeIdempotent | src/pages/Importacao/ImportacaoPage3.tsx:108-112 | a normalised header is plain and capital, and normalising it again changes nothing |
| Page3.NormalizeTo | src/pages/Importacao/ImportacaoPage3.tsx:108-112 | a header normalises to the text its characters normalise to, one by one |
| Page3.NormalizeSamples | src/pages/Importacao/ImportacaoPage3.tsx:108-112 | "CÓD BEM" and "DESCRIÇÃO DO BEM" normalise to "COD BEM" and "DESCRICAO DO BEM" |
| Page3.ProcessPdfFileMeaning | src/pages/Importacao/ImportacaoPage3.tsx:207-238 | the file fails exactly when the text is blank; otherwise it is confirmed exactly when every required name is the normal form of some header read, the rows kept as extracted |
| Page3.NormalizedCheck | src/pages/Importacao/ImportacaoPage3.tsx:222-234 | the check of the normalised headers passes exactly when each required name normalises from some header |
| Page3.CleanCurrencyOnePoint | src/pages/Importacao/ImportacaoPage3.tsx:114-118 | the cleaned amount has at most one point, none without a comma; the amount is never NaN, and text that does not read as a number gives 0 |
| Page3.ParseCurrencyWhole | src/pages/Importacao/ImportacaoPage3.tsx:114-118 | a whole number reads as itself |
| Page3.ParseCurrencyThousands | src/pages/Importacao/ImportacaoPage3.tsx:114-118 | "1.234,56" reads as 1234.56: the dots are dropped and the comma is the decimal point |
| Page3.CleanThousands | src/pages/Importacao/ImportacaoPage3.tsx:116 | cleaning drops the thousands dots and turns the comma into a point |
| Page3.TransformAccentFallback | src/pages/Importacao/ImportacaoPage3.tsx:290-309 | the plain labels are read first and the accented ones when those are empty |
| Page3.TransformToBem | src/pages/Importacao/ImportacaoPage3.tsx:290-309 | the scan code follows the stored code, the state is BOM, the value is never NaN, and both ids are 1 |
| Page1.TransformCode | src/pages/Importacao/ImportacaoPage.tsx:257-274 | the code is stored untrimmed as read, and the scan code is "PAT-" followed by it, or "PAT-SEM-CODIGO" |
| Page1.TransformFallbacks | src/pages/Importacao/ImportacaoPage.tsx:257-274 | the date is the cell as read or today, and the other fields fall back from the PDF label to the model key |
| Page1.TransformToBem | src/pages/Importacao/ImportacaoPage.tsx:257-274 | the state is BOM, the asset unchecked and not yet stored, and both ids are 1 |
| Page1.KeepDotsThousands | src/pages/Importacao/ImportacaoPage.tsx:336-337 | "d1.d2,f" is read by this screen as "d1.d2", while the dot-removing reading gives the intended "d1d2.f" |
| Page1.KeepDotsReading | src/pages/Importacao/ImportacaoPage.tsx:336-337 | this screen reads "d1.d2,f" as the number "d1.d2" |
| Page1.SecondPointValue | src/pages/Importacao/ImportacaoPage.tsx:337 | a second point ends the number `parseFloat` reads |
| Page1.KeepDotsClean | src/pages/Importacao/ImportacaoPage.tsx:337 | cleaning "d1.d2,f" keeps every character and turns the comma into a point |
| Page1.RemoveDotsReading | src/pages/Importacao/ImportacaoPage3.tsx:114-118 | the dot-removing reading of "d1.d2,f" is "d1d2.f" |
| Page1.LoneMinus | src/pages/Importacao/ImportacaoPage.tsx:336-337 | a lone "-" reads as NaN here and as 0 on the dot-removing screen |
| Validate.ValidateBem | src/utils/validateBem.ts:8-23 | the messages are those of the failed checks in their order, and the asset is valid exactly when there is none |
| Validate.RunCheck | src/utils/validateBem.ts:8-21 | one check pushes its message exactly when it fails |
| Validate.PushedMessages | src/utils/validateBem.ts:8-21 | the pushed messages are the messages of the failed checks |
| Validate.FailedMeaning | src/utils/validateBem.ts:8-21 | a check is listed exactly when it fails |
| Validate.FailedOrdered | src/utils/validateBem.ts:8-21 | the failed checks come in the source's order, at most six |
| Validate.MessageInjective | src/utils/validateBem.ts:8-21 | different checks have different messages |
| Validate.ErrorsMeaning | src/utils/validateBem.ts:8-23 | at most six messages, each present exactly when its check fails, none repeated, and none exactly when nothing fails |
| Validate.MessagesMembers | src/utils/validateBem.ts:8-21 | a message is present exactly when its check is listed |
| Validate.MessagesDistinct | src/utils/validateBem.ts:8-21 | checks in order give distinct messages |
| Validate.EstadoCheck | src/utils/validateBem.ts:17-21 | of the five stored state names, only PESSIMO is rejected |
| Validate.ValorCheck | src/utils/validateBem.ts:14-16 | an empty value text passes the value check, and a missing value fails it |
| Validate.ObjectChecks | src/utils/validateBem.ts:8-16 | an object is truthy, so it passes a presence check; as the value, `[]` reads as 0 and passes while `{}` reads as NaN and fails |
| Seqs.Filter | src/pages/Inventario/InventarioPage.tsx:86-96 | `filter` keeps no more than it is given, and only elements that pass |
| Seqs.FilterSubsequence | src/pages/Inventario/InventarioPage.tsx:86-96 | the kept elements are in their original order |
| Seqs.FilterMembers | src/pages/Inventario/InventarioPage.tsx:86-96 | an element is kept exactly when it is given and passes |
| Seqs.FilterMultiset | src/pages/Inventario/InventarioPage.tsx:86-96 | each element that passes is kept as often as it occurs, and no other element is kept |
| Seqs.FilterSplit | src/pages/Importacao/ImportacaoPage6.tsx:269-276 | the kept and the dropped elements together are as many as those given |
| Seqs.FilterAppend | src/services/DatabaseService.ts:797-805 | filtering two joined lists is filtering each |
| Seqs.FilterNone | src/pages/Importacao/ImportacaoPage2.tsx:351 | nothing is kept exactly when no element passes |
| Seqs.FilterAll | src/pages/Inventario/InventarioPage.tsx:86-96 | the list is kept whole exactly when every element passes |
| Inventario.FiltrarBensMeaning | src/pages/Inventario/InventarioPage.tsx:81-100 | an empty search keeps the list; otherwise exactly the loaded assets whose fields contain the lower-cased search, in their order and each as often as it was loaded, and the whole list exactly when every asset matches |
| Home.ByYear | src/pages/Home/HomePage2.tsx:83-93 | every inventory in a year's bucket is of that year |
| Home.ByYearMembers | src/pages/Home/HomePage2.tsx:83-93 | an inventory is in a year's bucket exactly when it was loaded and is of that year |
| Home.FirstYearsMeaning | src/pages/Home/HomePage2.tsx:83-93 | the years are listed once each, and a year is listed exactly when some inventory has it |
| Home.GroupByYear | src/pages/Home/HomePage2.tsx:83-93 | the loop keys the accumulator by exactly the years listed, each holding its year's inventories |
| Home.InsertDescMeaning | src/pages/Home/HomePage2.tsx:96-100 | inserting a new year keeps the years strictly decreasing and adds exactly that year |
| Home.SortDescMeaning | src/pages/Home/HomePage2.tsx:96-100 | sorting distinct years gives them strictly decreasing, without losing or adding any |
| Home.InsertByTimeMeaning | src/pages/Home/HomePage2.tsx:101-108 | inserting by start date keeps the newest first and adds exactly that inventory |
| Home.InsertByTimeContents | src/pages/Home/HomePage2.tsx:101-108 | inserting by start date adds exactly that inventory |
| Home.SortByTimeMeaning | src/pages/Home/HomePage2.tsx:101-108 | a group is sorted newest first and is a permutation of its inventories |
| Home.GroupsOf | src/pages/Home/HomePage2.tsx:101-108 | one group per year, in order, holding that year's inventories sorted by date |
| Home.LoadInventarios | src/pages/Home/HomePage2.tsx:83-111 | the loop and the sorts produce exactly the grouping of the loaded inventories |
| Home.BuildGroups | src/pages/Home/HomePage2.tsx:101-108 | the loop over the sorted years builds exactly those groups |
| Home.AgruparYears | src/pages/Home/HomePage2.tsx:96-100 | groups are in strictly decreasing year order, and there is one group for each year that occurs and none other |
| Home.OrderedYears | src/pages/Home/HomePage2.tsx:96-100 | the sorted years are strictly decreasing and are exactly the years that occur |
| Home.AgruparGroups | src/pages/Home/HomePage2.tsx:101-108 | each group is sorted newest first and is a permutation of its year's inventories |
| Home.GroupMembers | src/pages/Home/HomePage2.tsx:83-108 | an inventory is in a group exactly when it was loaded and is of the group's year |
| Home.EveryInventoryOnce | src/pages/Home/HomePage2.tsx:83-108 | every loaded inventory appears in its year's group and in no other group |
| Home.YearMatchesMembers | src/pages/Home/HomePage2.tsx:128 | an inventory is kept exactly when its year, written out, contains the search text |
| Home.FilterGroupsNonEmpty | src/pages/Home/HomePage2.tsx:124-132 | no group left by the search is empty |
| Home.FilterGroupsFrom | src/pages/Home/HomePage2.tsx:124-132 | every group left is an existing group narrowed to its matching inventories |
| Home.FilterGroupsKeeps | src/pages/Home/HomePage2.tsx:124-132 | every matching inventory is still shown under its year |
| Home.FilterGroupsOrder | src/pages/Home/HomePage2.tsx:124-132 | the search keeps the years strictly decreasing |
| Home.FiltrarPorAnoMeaning | src/pages/Home/HomePage2.tsx:120-135 | an empty search shows every group; otherwise the groups shown are exactly the matching inventories under their years, none empty |
| Home.PercentualMeaning | src/pages/Home/HomePage2.tsx:178-185 | 0 without a positive total or a count checked; otherwise the checked share rounded to the nearest percent, within 0 to 100 when the count does not exceed the total |
| Home.StatusMeaning | src/pages/Home/HomePage2.tsx:166-175 | the badge is "Concluído" exactly when the end date is set, parses and is before today, and "Em Andamento" otherwise; it changes at most once over time: finished stays finished on every later day, no end date or an unparsable one means in progress on every day, and a valid end date gives in progress on that day and finished on every day after |
| Cadastro.TextoInjective | src/pages/Bem/CadastrarBemPage.tsx:67-122 | different alerts have different texts |
| Cadastro.FormErrorMeaning | src/pages/Bem/CadastrarBemPage.tsx:67-81 | the form passes exactly when the trimmed scan code is non-empty and the untrimmed code has three UTF-16 code units or more; three characters always suffice and one never does; each failure gets its message |
| Cadastro.FormErrorSurrogates | src/pages/Bem/CadastrarBemPage.tsx:74 | a character above U+FFFF counts as two code units: an emoji and a letter pass the length check, an emoji alone does not |
| Text.Utf16Length | src/pages/Bem/CadastrarBemPage.tsx:74 | `length` lies between the number of characters and twice that number |
| Text.Utf16LengthBmp | src/pages/Bem/CadastrarBemPage.tsx:74 | for characters up to U+FFFF, `length` is the number of characters |
| Cadastro.FormErrorUntrimmed | src/pages/Bem/CadastrarBemPage.tsx:74-78 | a code of two spaces and one letter passes, although its trimmed length is 1 |
| Cadastro.SubmitRejects | src/pages/Bem/CadastrarBemPage.tsx:83-101 | as intended, with the store working: an invalid form touches nothing and shows its message, and a taken code inserts nothing and shows the duplicate alert |
| Cadastro.SubmitMeaning | src/pages/Bem/CadastrarBemPage.tsx:83-127 | as intended: the submit succeeds exactly when the form is valid, the code is free and the store does not fail; then exactly the form is inserted and no alert shown, and otherwise nothing is inserted and an alert shown |
| Cadastro.SubmitAsWrittenFails | src/pages/Bem/CadastrarBemPage.tsx:83-127 | as written, `initialize()` throws, so the submit never stores a row, calls the store or shows the duplicate alert; a form that passes the check always ends with the registration error |
| Cadastro.SubmitAsWrittenDiverges | src/pages/Bem/CadastrarBemPage.tsx:83-127 | for "ABC123" on an empty table the submit as written shows the registration error and stores nothing, while the intended submit stores the form and succeeds |
| Cadastro.InsertAsWrittenFails | src/pages/Bem/CadastrarBemPage.tsx:104-115 | with the INSERT failing on its unknown columns, no row is ever inserted, and a valid form gets the duplicate alert for a taken code and the registration error otherwise |
| Cadastro.SubmitKeepsCodesUnique | src/pages/Bem/CadastrarBemPage.tsx:92-115 | a submit keeps the stored scan codes unique |
| Cadastro.BemTable.constructor | src/pages/Bem/CadastrarBemPage.tsx:92-115 | the table starts with the given rows and no recorded call |
| Cadastro.BemTable.Query | src/pages/Bem/CadastrarBemPage.tsx:92-95 | the query reports whether the code is stored, records the call, and changes no row |
| Cadastro.BemTable.Insert | src/pages/Bem/CadastrarBemPage.tsx:104-115 | the INSERT as intended appends the form as a row and records the call; as written it always fails (see "## Findings") |
| Cadastro.CadastroScreen.constructor | src/pages/Bem/CadastrarBemPage.tsx:38-44 | the form starts with the scan code from the address, today's date and "ATIVO", no alert, not loading, not done |
| Cadastro.CadastroScreen.Alert | src/pages/Bem/CadastrarBemPage.tsx:67-81 | showing an alert changes only the alert |
| Cadastro.CadastroScreen.ValidateForm | src/pages/Bem/CadastrarBemPage.tsx:67-81 | the form passes exactly when it has no error, counting the code's length in UTF-16 code units, and the alert shows the error if there is one |
| Cadastro.CadastroScreen.HandleSubmit | src/pages/Bem/CadastrarBemPage.tsx:83-127 | the table, the calls made and the screen end as `Submit` specifies for the given failure point; the source as written is the `QueryFails` case |
| Cadastro.CadastroScreen.SendForm | src/pages/Bem/CadastrarBemPage.tsx:92-122 | the duplicate check and the INSERT leave the table, the calls and the alert as `Send` specifies for the given failure point |
| Text.TrimSpec | src/pages/Importacao/ImportacaoPage6.tsx:247-248 | `trim` keeps a middle slice whose cut ends are blank, and the result neither starts nor ends with white space |
| Text.TrimEmptyIffBlank | src/pages/Importacao/ImportacaoPage6.tsx:270 | a text trims to nothing exactly when it is blank |
| Text.TrimIdempotent | src/pages/Importacao/ImportacaoPage2.tsx:278 | trimming twice is trimming once |
| Text.ContainsIff | src/pages/Inventario/InventarioPage.tsx:88-95 | `includes` holds exactly when the text occurs at some position |
| Text.ReplaceFirstSpec | src/pages/Importacao/ImportacaoPage4.tsx:76-78 | `replace` with a text changes only its first occurrence, and leaves a text without one unchanged |
| Text.ReplaceFirstChar | src/pages/Importacao/ImportacaoPage6.tsx:340 | the first occurrence of a character is the one replaced |
| Text.SplitOnJoin | src/pages/Importacao/ImportacaoPage2.tsx:351 | joining the lines again with line breaks gives back the text |
| Text.SplitWidePieces | src/pages/Importacao/ImportacaoPage2.tsx:352-354 | no piece of `split(/\s{2,}/)` holds a run of two or more spaces, and no later piece starts with one |
| Text.SplitWideJoinWide | src/pages/Importacao/ImportacaoPage2.tsx:352-354 | cells joined by wide gaps split back into the same cells |
| Text.RemoveAllAppend | src/pages/Importacao/ImportacaoPage3.tsx:116 | removing the dots from two joined texts removes them from each |
| Text.StripAccents | src/pages/Importacao/ImportacaoPage3.tsx:110-111 | stripping leaves no combining mark and never lengthens the text |
| Numbers.ParseFloatNatToString | src/pages/Importacao/ImportacaoPage4.tsx:369 | `parseFloat` of a whole number written out gives that number |
| Numbers.ParseFloatDecimal | src/pages/Importacao/ImportacaoPage4.tsx:369 | `parseFloat` of "d.f" followed by text that is not a digit or exponent is d + f / 10^\|f\| |
| Numbers.OrZero | src/pages/Importacao/ImportacaoPage4.tsx:369 | `x \|\| 0` is never NaN, keeps a truthy number and gives 0 otherwise |
| Numbers.RoundPercent | src/services/DatabaseService.ts:849-852 | `Math.round(c / t * 100)` is within half a percent of the exact share |
| Numbers.RoundPercentRange | src/services/DatabaseService.ts:849-852 | a share of at most the whole rounds to between 0 and 100 |
| Numbers.RoundPercentEnds | src/services/DatabaseService.ts:849-852 | everything gives 100 and nothing gives 0 |
| Numbers.NatToStringValue | src/pages/Home/HomePage2.tsx:128 | a number written out in decimal digits has that value |
| Numbers.NatToStringIsNumber | src/utils/validateBem.ts:14-16 | a number written out is never read as NaN |

## Left out

- CSV parsing (Papa.parse with its quoting, empty-line skipping and
  header handling) is not modelled. The parser's result, data rows and
  errors, is an input.
- PDF text extraction (pdfjs) is not modelled. The extracted text is an
  input.
- File picking, base64 decoding (`atob`, `TextDecoder`), toasts, the
  navigation timers, loading spinners and the rendering of every screen:
  these are user interface and I/O.
- Floating point: `parseFloat` is read as an exact rational, with no IEEE
  rounding, overflow or precision loss. `Math.round` is applied to the
  exact share.
- Numbers.ParseFloatDecimal, and every currency lemma: these state
  the exact rational value, which is weaker than the IEEE double the
  source computes.
- The JSON bridge into SQLite is an assumption of the model: `undefined`,
  NaN and the infinities are taken to arrive as NULL.
- Foreign keys, triggers, the DDL, `initialize`, `getDB`/`closeDB`, the
  other tables (CAMPUS, BLOCO, AMBIENTE, SERVIDOR, CONFERENCIA,
  INVENTARIO), `addConferencia` and the inventory queries: outside the
  asset core. The locations enter only as the lookup maps of the LEFT
  JOINs.
- SQLite's `LIKE` is modelled with its `%` and `_` wildcards and ASCII
  case folding; non-ASCII letters are compared exactly. The source binds
  no ESCAPE clause, so escapes are not modelled.
- Query.LikeContains, Query.LikePrefix, Query.SearchIsSubstring: these
  state the substring and prefix readings only for a search text without
  `%` or `_`, since a wildcard typed into the search is matched as a
  wildcard.
- `toLowerCase`, `toUpperCase` and the NFD accent stripping cover ASCII
  and the Latin-1 letters, not the whole of Unicode. `toUpperCase` includes
  the three Latin-1 mappings that leave Latin-1: "ß" to "SS", "ÿ" to
  U+0178 and "µ" to U+039C. Letters beyond Latin-1 are left unchanged.
- Dates: `new Date()`, `Date.parse` and `getTime` are parameters (today,
  and a partial function from text to a time).
  - Home.SortByTimeMeaning: an unparsable start date makes the source's
    comparator return NaN, and is not modelled.
  - Home.StatusMeaning: an unparsable end date is taken as "not finished".
- The stability of the sorts is not proved: ties in start date or code
  may come out in any order the model's insertion sort gives.
- `Object.entries` lists integer-like keys, such as years, in ascending
  order, while the model lists the years in order of first occurrence.
  The order does not matter: the years are sorted newest first right
  afterwards, and that sorted order is what the model proves.
- Page2's `transformHeader` looks a header up in a plain object, so a
  header such as "constructor" would find an inherited property. That
  quirk is not modelled: every header maps to its trimmed text.
- The `startImport` and `carregarBens` of ImportacaoPage and
  ImportacaoPage2/3/4 are not modelled; only ImportacaoPage6's are. Their
  row transformations, header checks and currency readings are modelled
  screen by screen. Their `startImport` differs from ImportacaoPage6's:
  - it maps every parsed row, with no valid-row filter and no skipped
    count (ImportacaoPage.tsx:278-305, ImportacaoPage2.tsx:365-389,
    ImportacaoPage3.tsx:311-326, ImportacaoPage4.tsx:316-338);
  - it calls `importBens` even for an empty list, and reports every
    parsed row as a success whatever the import returns;
  - ImportacaoPage and ImportacaoPage2 clear the filters and reload with
    `carregarBens(1, {})`, while ImportacaoPage3 and ImportacaoPage4
    reload with `carregarBens(1)` and keep the current filters.
- CadastrarBemPage's INSERT is modelled on an abstract table of submitted
  forms.
  - The SQL text and the column list of that INSERT are not modelled.
    As written they make the INSERT fail, which the model records as the
    `InsertFails` failure point (see "## Findings").
  - A failing store call is a parameter. The source as written always
    fails before the duplicate query, which is the `QueryFails` point.
  - `handleInputChange`, the scan button and navigation after success
    are not modelled.
- `formatarData`, `formatFileSize` and `formatCurrency` are display
  helpers and are not modelled. Page4's `formatDate` is modelled where
  `transformToBemModel` uses it.
- The difference between `null` and `undefined` in inventory counters is
  not modelled: both are "absent".
- Concurrency: the asynchronous calls are sequential in the model.
- Store failures other than the NOT NULL and UNIQUE violations are not
  modelled in `Store` and `Service`. Examples are the trigger script's
  syntax error, which the first `getDB` on a fresh database rethrows
  (DatabaseService.ts:44-54), and I/O errors. The error texts assume that
  the plugin passes on SQLite's own "X constraint failed: BEM.col"
  wording.
- Store.ImportIdempotent: holds for a batch of distinct codes only.
  With a code repeated, the second import can fail where the first did
  not: for rows A (scan code X), A again (scan code Y) and B (scan code
  X), the first import ends with A holding Y and inserts B with X, while
  the second one rewrites A back to X, which B holds.
- `validateBem` receives any JavaScript value. The model has undefined,
  null, booleans, numbers, strings, and objects or arrays carried with the
  text of their `toString`. Symbols, BigInt and objects with their own
  `valueOf` are not modelled.

## Findings

| source | as written | input that shows it | evidently intended | confidence | as-written member | corrected member |
|---|---|---|---|---|---|---|
| src/pages/Bem/CadastrarBemPage.tsx:88, src/services/DatabaseService.ts:68-82, 240-300 | `initialize()` runs a trigger script with MySQL-style `IF … SET … END IF` and a stray `A`, which SQLite cannot parse; it rethrows, and `isInitialized` is never set, so every submit lands in the `catch` | a form with code "ABC123" on an empty table: the registration error and no row | the duplicate query, then the INSERT of the form | high; not executed | Cadastro.SubmitAsWrittenFails, Cadastro.SubmitAsWrittenDiverges | Cadastro.SubmitMeaning |
| src/pages/Bem/CadastrarBemPage.tsx:104-115, src/services/DatabaseService.ts:136-155 | the INSERT names `descricao`, `localizacao` and `status`, which BEM lacks, and leaves the NOT NULL `classificacao`, `numero_patrimonio`, `descricao_bem` and `valor_aquisicao` unset, so it always fails | any valid form with a free code, once `initialize()` succeeds: the registration error and no row | a row holding the form is inserted | high; not executed | Cadastro.InsertAsWrittenFails | Cadastro.SubmitMeaning |
