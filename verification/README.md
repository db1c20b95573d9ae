# FileExporter plugin core, in Dafny

This project models the core of the CakePHP FileExporter plugin. The plugin
turns application data into downloadable spreadsheet (`.xls`) and CSV files.
The model has three parts:

- **The spreadsheet helper** (`AbstractExcelExporterHelper::compile` and
  `setExcelCellValue`). It builds a one-sheet workbook: first the header labels
  at their own addresses, then one row per record, starting at row 2. Each
  column procedure names a helper method and a cell data type; the method's
  value on the record is written at `column . row` with that type. Any
  exception aborts the compile, logs one line and yields `null`.
- **The CSV helper** (`CsvExporterHelper`). It makes one CSV line per record
  through a memory stream (`row`, `writeCsvRow`). It prepares text for Windows
  software (`windows`): line breaks are normalised so that the result's only
  line break is CR LF (`toCrLf`, two `str_replace` calls), then the text is
  optionally transcoded.
- **The controller component** (`FileExporterComponent`). It has the `xls`/`csv`
  extension tests and the content type registration, and it prepares download
  responses with four cache headers: `Expires` is 1800 s after the request
  time, and `Last-Modified` is the request time.

The modules:

| module | file | contents |
|---|---|---|
| `Wrappers` | wrappers.dfy | `Option`, `Result` (a thrown exception) and `Logged` (a value with the log lines written) |
| `PhpValues` | php_values.dfy | PHP values and arrays, `isset`, `empty`, integer and key to string |
| `StrReplace` | str_replace.dfy | PHP `str_replace` with one search and with an array of searches |
| `Newlines` | newlines.dfy | `toCrLf` and what it guarantees |
| `CsvExporter` | csv_exporter.dfy | `writeCsvRow`, `row`, `toEncoding`, `windows` |
| `Worksheet` | worksheet.dfy | the sheet as a map from address to cell, and sequences of cell writes |
| `ExcelExporter` | excel_exporter.dfy | document creation, `setExcelCellValue`, the record loops, `compile` |
| `FileExporterComponent` | file_exporter.dfy | extension tests, `initialize`, cache headers, `respondAsExcel` / `respondAsCsv` |

These are parameters of the model:

- the PHP builtins `fputcsv`, `fopen`, `setlocale` and `rewind` (as a
  `CsvEnvironment`);
- `mb_convert_variables` (a `Transcoder`);
- the helper's transform methods (a map from method name to function);
- the PHPExcel writer (a `Writer`);
- `gmdate` (a `DateFormatter`).

An exception is a `Failure` carrying the exact message the source builds.

`toCrLf` runs its four searches one after the other over the whole string.
This has a visible consequence: `"x\r\n\ry"` comes out as `"x\r\ny"`, because
the LF CR search consumes the LF of the CR LF together with the following CR.
The model keeps this behaviour and proves it (`Newlines.ToCrLfCollapsingExample`).

## Model

| member | source | states |
|---|---|---|
| PhpValues.Get | file_exporter/views/helpers/abstract_excel_exporter.php:302-317 | array lookup: absent iff no entry has the key, otherwise the value is one stored under it |
| PhpValues.Values | file_exporter/views/helpers/abstract_excel_exporter.php:183-184 | `foreach` over an array visits its values in order, keys dropped |
| PhpValues.NatToDecimal | file_exporter/views/helpers/abstract_excel_exporter.php:185-187 | a row number renders as a non-empty digit string without a leading zero, which is "0" only for 0 |
| PhpValues.DecimalRoundTrip | file_exporter/views/helpers/abstract_excel_exporter.php:185-187 | reading the rendered row number back gives the number |
| PhpValues.DecimalCanonical | file_exporter/views/helpers/abstract_excel_exporter.php:185-187 | a digit string without a leading zero is the rendering of its value, so the rendering is the only such string for a number |
| StrReplace.ReplaceSplit | file_exporter/views/helpers/csv_exporter.php:142-145 | replacement distributes over a split at a character that cannot be part of an occurrence |
| StrReplace.ReplaceAbsent | file_exporter/views/helpers/csv_exporter.php:142-145 | nothing is replaced when the search's first character never appears |
| StrReplace.ReplaceBySelf | file_exporter/views/helpers/csv_exporter.php:177 | the LF to LF step changes nothing |
| StrReplace.ReplaceCharRemoves | file_exporter/views/helpers/csv_exporter.php:142 | replacing CR by LF leaves no CR |
| Newlines.ToCrLf | file_exporter/views/helpers/csv_exporter.php:141-146 | the result has no bare CR and no bare LF, and keeps the non-break text of the input in order |
| Newlines.CollapseSteps | file_exporter/views/helpers/csv_exporter.php:173-181 | the first replacement is LF CR, then CR LF, then LF, then CR, each to LF, each over the previous result |
| Newlines.CollapseIsCrFree | file_exporter/views/helpers/csv_exporter.php:142 | after the first replacement no CR remains |
| Newlines.ExpandIsClean | file_exporter/views/helpers/csv_exporter.php:145 | turning every LF of CR-free text into CR LF leaves only CR LF breaks |
| Newlines.StripCollapse | file_exporter/views/helpers/csv_exporter.php:142 | the first replacement keeps the non-break text |
| Newlines.CollapseExpand | file_exporter/views/helpers/csv_exporter.php:141-146 | the first replacement undoes the second on CR-free text |
| Newlines.CleanIsExpansion | file_exporter/views/helpers/csv_exporter.php:141-146 | every CR LF-clean string is the expansion of its collapse |
| Newlines.ToCrLfFixedPoints | file_exporter/views/helpers/csv_exporter.php:141-146 | `toCrLf` leaves a string unchanged iff its only line break is CR LF |
| Newlines.ToCrLfIdempotent | file_exporter/views/helpers/csv_exporter.php:141-146 | normalising twice equals normalising once |
| Newlines.ToCrLfKeepsBreakFree | file_exporter/views/helpers/csv_exporter.php:141-146 | text without CR or LF is returned unchanged |
| Newlines.ToCrLfSplit | file_exporter/views/helpers/csv_exporter.php:141-146 | text on either side of a non-break character is normalised independently |
| Newlines.ToCrLfCons | file_exporter/views/helpers/csv_exporter.php:141-146 | a leading non-break character is kept |
| Newlines.ToCrLfOfLf | file_exporter/views/helpers/csv_exporter.php:141-146 | a lone LF becomes CR LF |
| Newlines.ToCrLfOfCr | file_exporter/views/helpers/csv_exporter.php:141-146 | a lone CR becomes CR LF |
| Newlines.ToCrLfOfCrLfCr | file_exporter/views/helpers/csv_exporter.php:141-146 | CR LF followed by CR collapses to one CR LF |
| Newlines.ToCrLfMixed | file_exporter/views/helpers/csv_exporter.php:141-146 | a lone LF and a lone CR between ordinary characters each become CR LF, and a CR LF-clean tail is kept |
| Newlines.ToCrLfMixedExample | file_exporter/views/helpers/csv_exporter.php:141-146 | `"a\nb\rc\r\nd"` becomes `"a\r\nb\r\nc\r\nd"` |
| Newlines.ToCrLfCollapsingExample | file_exporter/views/helpers/csv_exporter.php:141-146 | `"x\r\n\ry"` becomes `"x\r\ny"` |
| CsvExporter.WriteCsvRow | file_exporter/views/helpers/csv_exporter.php:96-133 | a line is produced iff the row is an array and open, setlocale, fputcsv and rewind all succeed, and the line is what fputcsv wrote with "," and `"`; the first failing step decides the exception: open, locale, put-csv or rewind failure; a non-array row fails before any buffer is opened; once opened, the buffer is closed exactly once, last, on every path; each step runs iff every step before it succeeded, so a failed fopen leaves no events, a failed setlocale or fputcsv is followed only by the close, and the rewind and the read happen iff a line is produced; the events of an opened run are the steps in source order, each at most once, then the close; a later failure is one of the three buffer faults, rethrown |
| CsvExporter.Row | file_exporter/views/helpers/csv_exporter.php:46-56 | the CSV line with an empty log, or "" with exactly one log line, the message of the exception `writeCsvRow` threw; a non-array row logs "CSV record row must be array" |
| CsvExporter.RowLogs | file_exporter/views/helpers/csv_exporter.php:46-133 | the exact line logged when fopen, setlocale, fputcsv or rewind fails |
| CsvExporter.ToEncoding | file_exporter/views/helpers/csv_exporter.php:156-166 | fails iff the conversion fails, with the from/to message; otherwise it returns the converted text |
| CsvExporter.Windows | file_exporter/views/helpers/csv_exporter.php:68-80 | with no encoding the result is `toCrLf(value)`; a successful transcoding is returned without a log; a failed one is logged once and the CR LF text comes back; whenever no transcoding happened the result has only CR LF breaks |
| CsvExporter.WindowsDefaultFailure | file_exporter/views/helpers/csv_exporter.php:68-76 | with the default SJIS-win encoding, a failed conversion logs "failed to convert encoding: invalid encoding: from=" + the internal encoding + " to=SJIS-win" and the CR LF text is returned |
| Worksheet.WriteAll | file_exporter/views/helpers/abstract_excel_exporter.php:179-190 | after a sequence of writes the sheet's addresses are the old ones plus every address written |
| Worksheet.LastWrite | file_exporter/views/helpers/abstract_excel_exporter.php:179-190 | none iff no write touches the address; otherwise the cell of a write to it that no later write overrides |
| Worksheet.WriteAllAppend | file_exporter/views/helpers/abstract_excel_exporter.php:179-190 | writing two sequences one after the other equals writing their concatenation |
| Worksheet.WriteAllLastWins | file_exporter/views/helpers/abstract_excel_exporter.php:179-190 | an address holds its last write; an address nobody writes keeps its cell |
| ExcelExporter.CreateDocument | file_exporter/views/helpers/abstract_excel_exporter.php:206-255 | lastModifiedBy is the creator; title, subject, description, keywords and category are the helper's; the font is ＭＳ Ｐゴシック, size 9, not bold; column width and row height are "12"; sheet 0 is active and empty |
| ExcelExporter.HeaderWrites | file_exporter/views/helpers/abstract_excel_exporter.php:179-181 | one write per header entry, in order, the label at its own address with the type left to the library |
| ExcelExporter.Address | file_exporter/views/helpers/abstract_excel_exporter.php:185-187 | the address is the column key followed by digits without a leading zero that read back as the row number, and it is never PHP-empty for a row above 0 |
| ExcelExporter.CellFor | file_exporter/views/helpers/abstract_excel_exporter.php:288-320 | succeeds iff the address is not empty, the procedure and the row are arrays, `process` is set and names a method, the method returns, and `type` is set; the write is then the method's value at the address with the declared type, explicitly |
| ExcelExporter.SetExcelCellValue | file_exporter/views/helpers/abstract_excel_exporter.php:288-320 | on success the address holds the named method's value with the declared type, exactly the address is added or replaced, and every other cell is unchanged; on failure the error is the checks' error |
| ExcelExporter.CheckOrder | file_exporter/views/helpers/abstract_excel_exporter.php:289-317 | the checks run in source order, so the first defect decides the error: an empty address, then the procedure, then the row (InvalidArgument), then `process` (Domain), then the method (BadMethodCall), then the method's own exception, then `type` (Domain) |
| ExcelExporter.WriteRecordSucceeds | file_exporter/views/helpers/abstract_excel_exporter.php:186-189 | a record is written iff every column procedure accepts it |
| ExcelExporter.WriteRecordWrites | file_exporter/views/helpers/abstract_excel_exporter.php:186-189 | an accepted record adds exactly its cells `p . row`, in procedure order |
| ExcelExporter.WriteRecordFirstFailure | file_exporter/views/helpers/abstract_excel_exporter.php:186-189 | a rejected record reports the error of its first failing procedure |
| ExcelExporter.WriteRecordsSucceeds | file_exporter/views/helpers/abstract_excel_exporter.php:183-190 | the records are written iff every procedure accepts every record at its row |
| ExcelExporter.WriteRecordsWrites | file_exporter/views/helpers/abstract_excel_exporter.php:183-190 | accepted records add exactly the planned writes, record after record |
| ExcelExporter.WriteRecordsFirstFailure | file_exporter/views/helpers/abstract_excel_exporter.php:183-190 | a failed run reports the first failing cell in row-major order |
| ExcelExporter.PlannedWritesLayout | file_exporter/views/helpers/abstract_excel_exporter.php:183-189 | with m procedures, write i·m + j exists and is the j-th write of record i at row START_ROW + index + i: the loops are row-major, records outside, procedures inside |
| ExcelExporter.PlannedAddress | file_exporter/views/helpers/abstract_excel_exporter.php:183-188 | write i·m + j lands at column j's key followed by the row number i + 2 |
| ExcelExporter.PlannedExplicit | file_exporter/views/helpers/abstract_excel_exporter.php:317-319 | every data cell carries its declared type explicitly |
| ExcelExporter.Compile | file_exporter/views/helpers/abstract_excel_exporter.php:167-199 | a binary comes with an empty log, and null comes with exactly one log line that carries the failure prefix; non-array data logs "argument data must be array"; a workbook that cannot be built never reaches the writer; a built workbook is passed to the Excel5 writer, whose binary is returned with an empty log, or whose exception is logged with the prefix |
| ExcelExporter.BuildMeaning | file_exporter/views/helpers/abstract_excel_exporter.php:170-191 | the workbook is built iff the data is an array and every procedure accepts every record; it is then the fresh document with the header writes followed by the data writes |
| ExcelExporter.BuildFirstFailure | file_exporter/views/helpers/abstract_excel_exporter.php:183-195 | a failed build reports the first failing cell in row-major order |
| ExcelExporter.BuildNeverEmptyAddress | file_exporter/views/helpers/abstract_excel_exporter.php:183-188 | the empty-address check never fires during a compile |
| ExcelExporter.EmptyDataHeaderOnly | file_exporter/views/helpers/abstract_excel_exporter.php:179-190 | with no records the workbook holds the header only, whatever the procedures |
| ExcelExporter.NoProceduresAcceptAnything | file_exporter/views/helpers/abstract_excel_exporter.php:184-190 | with no procedures, records that are not arrays are never rejected |
| ExcelExporter.DataOverridesHeader | file_exporter/views/helpers/abstract_excel_exporter.php:179-190 | a data write replaces a header label at the same address; an address only the header writes keeps its last label |
| FileExporterComponent.ExtensionsExclusive | file_exporter/controllers/components/file_exporter.php:77-90 | no request is both xls and csv |
| FileExporterComponent.ExtensionExamples | file_exporter/tests/cases/components/file_exporter.test.php:37-69 | xls and csv are recognised exactly: html, txt, csv and xlsx are not xls; html, txt, tsv and xls are not csv |
| FileExporterComponent.Initialize | file_exporter/controllers/components/file_exporter.php:62-70 | an xls request maps "xls" to the ms-excel type and then text/plain; any other request leaves the table unchanged; other extensions are never touched |
| FileExporterComponent.InitializeIdempotent | file_exporter/controllers/components/file_exporter.php:62-70 | initialising twice equals initialising once |
| FileExporterComponent.HeaderLineShape | file_exporter/controllers/components/file_exporter.php:141-150 | each header line is the field name, ": ", then the formatted instant or "public" |
| FileExporterComponent.EnableCacheControl | file_exporter/controllers/components/file_exporter.php:134-151 | it appends exactly Expires, Last-Modified, Cache-Control and Pragma, in that order; Expires is ttl seconds after Last-Modified, which is the request time, or 0 when the request time is absent |
| FileExporterComponent.CacheControlLines | file_exporter/controllers/components/file_exporter.php:134-151 | the four header lines as sent |
| FileExporterComponent.RespondAsExcel | file_exporter/controllers/components/file_exporter.php:98-103 | an xls download with the file name as attachment, after exactly the cache headers of `enableCacheControl(1800)`, whose instants differ by 1800 s |
| FileExporterComponent.RespondAsCsv | file_exporter/controllers/components/file_exporter.php:111-116 | a csv download with the file name as attachment, after exactly the cache headers of `enableCacheControl(1800)`, whose instants differ by 1800 s |
| FileExporterComponent.RespondersAgree | file_exporter/controllers/components/file_exporter.php:98-116 | the two responders differ only in the extension |

## Left out

- `fputcsv` and the memory stream's contents are a function parameter. Its quoting and escaping rules and its trailing newline are not modelled, and no quoting rule is claimed. The field values are handed over in iteration order, without keys, together with the delimiter "," and the enclosure `"`.
- `stream_get_contents` failing (returning false) is not modelled: a rewound buffer is read as the line fputcsv wrote.
- `setlocale` changes process-wide state. The model keeps only whether it succeeds.
- `mb_convert_variables` and `Configure::read('App.encoding')` are a `Transcoder` parameter and the `internal` argument. No encoding is modelled.
- CsvExporter.Windows: the source's default encoding argument, `SJIS-win`, is not a default here. A caller omitting it passes `Some(SjisEncoding)`.
- PHPExcel is reduced to a document record and a map of cells. These parts are not modelled:
  - coordinate validation in `setCellValue` and `setCellValueExplicit`, and the exceptions either can raise. A data write is a map update that never fails. In the source a rejected address throws, and the compile logs that exception with the failure prefix; the model has no such path;
  - its type inference;
  - the coercion in `setCellValueExplicit`;
  - the Excel5 writer, which is a `Writer` parameter taking the document and the format name;
  - the output buffer around it, including the buffer left open when the writer throws.
- ExcelExporter.BuildMeaning: its "iff" holds only for cell addresses the spreadsheet library accepts, because the library's rejection of an address is not modelled.
- ExcelExporter.WriteRecordSucceeds: its "iff" holds only for cell addresses the spreadsheet library accepts, for the same reason.
- ExcelExporter.NoProceduresAcceptAnything: holds only when the library accepts every header address, for the same reason.
- `method_exists` and dynamic dispatch are modelled as a map of transforms, keyed by the exact string.
  - PHP's case-insensitive method names are not modelled.
  - A non-string `process` value never names a method.
  - The helper's other methods (for example `compile` itself) cannot be named.
  - A transform is a total function that returns a value or throws.
- `getTableHeader` is taken to return an array and never to throw. The model does not cover a header that is not an array, nor one whose computation throws, which the source would log with the failure prefix before returning null.
- Arrays are sequences of entries. Lookup returns the first entry with the key; PHP arrays have unique keys, so that case never arises from PHP data.
- PHP floats are not modelled: `Value` has null, booleans, integers, strings and arrays. A transform that returns a float, or a float `process` value in the missing-method message, cannot be represented.
- Integers are unbounded. PHP's overflow to float in `START_ROW + $index` and in `$current + $ttl` is not modelled.
- `gmdate` is a parameter; the calendar formatting is not modelled. A missing request time counts as instant 0, which is how PHP 5 reads `gmdate(..., null)` (PHP 8 reads it as the current time).
- `header()` is modelled as appending to a header sequence. `RequestHandler::respondAs` and `setContent` are modelled as their arguments; the headers `respondAs` itself sends are not modelled.
- `Helper::output` is the identity. The log level of `$this->log` is dropped; a log is a sequence of lines.
- file_exporter/views/helpers/abstract_file_exporter.php is an empty base class and is not part of this model.
