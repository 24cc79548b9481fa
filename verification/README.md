# Diploma report pipeline — a Dafny model

This project models the data path of a teacher-report application. The
front end turns per-semester grade tables into statistics, groups them by
discipline and academic year, and collects a JSON payload. The PHP export
layer then checks the payload and renders it into a Word document and an
Excel workbook. It packs both files into a ZIP archive named from a
template.

The modules follow the program's files:

- `Calculations`: per-row totals, performance and quality.
- `ResultsCalculations`: the per-tab grouping, the three pivot tables and the overall results.
- `DataProcessing`: the payload sanitiser, tab generation, row enhancement and configuration normalisation.
- `Validation`: the invalid-leaf detector.
- `ErrorHandler`: API errors turned into notifications.
- `ReportDataValidator` and `ReportDataValidationService`: the two copies of the payload checks.
- `TitleCleanerService`: title cleaning.
- `ArchiveService`: archive naming, configuration and the ZIP builder.
- `WordReportExporter` and `ExcelReportExporter`: what the two documents contain.
- `ReportExporter`: the orchestration, file naming and error rewrapping.

Supporting modules:

- `Wrappers`: Option, Result and Outcome.
- `Decimal`: exact half-up rounding.
- `Text`: character classes, trimming, number rendering and `str_replace`.
- `Json`: JavaScript values.
- `JsObject`: JavaScript property order.
- `Seqs`: the keys of an entry list (shared by PHP arrays and JavaScript objects) and first-seen de-duplication.
- `PhpValue`: PHP values, arrays, `empty`, `??` and `array_merge`, plus the kinds of throwables.

Numbers are exact reals. `toFixed(2)` is half-up rounding at two decimals.
The helpers `calculateAverageScore` and `roundToDecimal` are imported by the
results code but are not part of this model, so they are parameters
(`Calculations.Helpers`). The clock, temporary paths, the file system and
the document libraries are parameters too.

## Model

| member | source | states |
|---|---|---|
| Calculations.TotalGrades | diploma_app/resources/js/Utils/calculations.js:6-10 | null exactly when there is no discipline or no graded entry; otherwise the positive number of fives, fours and threes |
| Calculations.Performance | diploma_app/resources/js/Utils/calculations.js:17-24 | null exactly when the total is null; otherwise a two-decimal value between 60 and 100 |
| Calculations.PerformanceIsRoundedRatio | diploma_app/resources/js/Utils/calculations.js:21-24 | the performance is the unique two-decimal value within half a hundredth of (5·fives+4·fours+3·threes)/(5·total)·100, halves rounding up |
| Calculations.PerformanceRatioBounds | diploma_app/resources/js/Utils/calculations.js:21-24 | the 3/4/5 weights keep the exact ratio in [60, 100] |
| Calculations.Quality | diploma_app/resources/js/Utils/calculations.js:32-35 | null exactly when there is no discipline or no students, whatever the grades; non-negative and two-decimal; at most 100 when fives+fours ≤ students |
| Calculations.QualityIsRoundedRatio | diploma_app/resources/js/Utils/calculations.js:32-35 | the quality is the unique two-decimal value within half a hundredth of (fives+fours)/students·100, halves rounding up |
| Calculations.QualityUnclamped | diploma_app/resources/js/Utils/calculations.js:35 | nothing caps quality: 2 fives among 1 student give 200.00 |
| Calculations.MathematicsExample | diploma_app/resources/js/Utils/calculations.js:17-35 | 20 students with 10/6/4 grades give performance 86.00 and quality 80.00 |
| Decimal.RoundHalfUp | diploma_app/resources/js/Utils/calculations.js:24 | `toFixed(2)` on an exact value: a grid point within half a step, exact halves away from zero |
| Decimal.RoundHalfUpUnique | diploma_app/resources/js/Utils/calculations.js:24 | for non-negative values, rounding is the only grid point in the half-open window around the value |
| Decimal.RoundIdempotent | diploma_app/resources/js/Utils/calculations.js:24 | rounding an already rounded value changes nothing |
| Decimal.RoundWithinGridBounds | diploma_app/resources/js/Utils/calculations.js:24 | rounding never crosses a grid point that bounds the value |
| Decimal.RoundHalfUpExample | diploma_app/resources/js/Utils/calculations.js:24 | 2.345 rounds to 2.35 |
| Seqs.FirstSeen | diploma_app/resources/js/Utils/resultsCalculations.js:77-82 | the `Set` of disciplines: the same members as the input, no repeats, empty only for empty input |
| Seqs.FirstSeenOrder | diploma_app/resources/js/Utils/resultsCalculations.js:77-82 | the `Set` lists its members in the order of their first occurrence in the input |
| JsObject.Put | diploma_app/resources/js/Utils/resultsCalculations.js:21-27 | `o[k] = v`: k reads back v, every other key is unchanged, and the key set grows by k exactly when k is new |
| JsObject.PutOrder | diploma_app/resources/js/Utils/resultsCalculations.js:21-27 | writes keep JavaScript property order, and the non-index keys change only by appending a new one |
| JsObject.PutAllLastWins | diploma_app/resources/js/Utils/resultsCalculations.js:85-91 | after a series of writes, a key holds the value of its last write |
| JsObject.PutAllUnwritten | diploma_app/resources/js/Utils/resultsCalculations.js:85-91 | a key never written keeps its old value |
| JsObject.PutAllKeys | diploma_app/resources/js/Utils/resultsCalculations.js:85-91 | after the writes, the keys are the old keys plus the written ones |
| JsObject.PutAllNonIndexOrder | diploma_app/resources/js/Utils/resultsCalculations.js:85-91 | after the writes, the non-index keys are the old ones followed by the newly written ones in first-write order |
| ResultsCalculations.KeyedCodes | diploma_app/resources/js/Utils/resultsCalculations.js:19-20 | a code is a grouping key exactly when some row has a subject with that non-empty `code_name` |
| ResultsCalculations.Group | diploma_app/resources/js/Utils/resultsCalculations.js:15-41 | the discipline map is in property order and has no more entries than keyed rows |
| ResultsCalculations.GroupContents | diploma_app/resources/js/Utils/resultsCalculations.js:18-41 | the map holds exactly the keyed disciplines, each with the present metric values of its own rows, in row order |
| ResultsCalculations.GroupOrder | diploma_app/resources/js/Utils/resultsCalculations.js:15-43 | the non-index discipline keys come in first-seen order over autumn-winter then spring-summer |
| ResultsCalculations.UnkeyedRowIgnored | diploma_app/resources/js/Utils/resultsCalculations.js:19-20 | a row without discipline or code changes nothing, wherever it stands |
| ResultsCalculations.MeanOrNull | diploma_app/resources/js/Utils/resultsCalculations.js:45-65 | null exactly for an empty value list |
| ResultsCalculations.TabResults | diploma_app/resources/js/Utils/resultsCalculations.js:14-66 | one result per keyed code, with no repeats and in property order; each metric is the rounded mean of that code's present values (nulls and NaNs excluded) |
| ResultsCalculations.Intermediate | diploma_app/resources/js/Utils/resultsCalculations.js:13-14 | one result list per tab, in tab order |
| ResultsCalculations.Universe | diploma_app/resources/js/Utils/resultsCalculations.js:77-82 | the disciplines of every tab, without repeats, empty exactly when every tab is |
| ResultsCalculations.UniverseOrder | diploma_app/resources/js/Utils/resultsCalculations.js:77-82 | the disciplines stand in the order of their first appearance, tab by tab and result by result |
| ResultsCalculations.Find | diploma_app/resources/js/Utils/resultsCalculations.js:87-89 | `find` is absent exactly when no result names the discipline; otherwise it returns the first result that does |
| ResultsCalculations.TableRow | diploma_app/resources/js/Utils/resultsCalculations.js:84-92 | a row's keys are exactly `discipline` and the tab labels; integer-like labels come first in numeric order and the other keys follow in first-write order: `discipline`, then the labels without repeats |
| ResultsCalculations.TableRowCell | diploma_app/resources/js/Utils/resultsCalculations.js:85-91 | under a tab label that no later tab reuses sits that tab's metric for the discipline, or null when the tab has no result |
| ResultsCalculations.TableRowDiscipline | diploma_app/resources/js/Utils/resultsCalculations.js:85 | the `discipline` key holds the discipline when no tab is labelled `discipline` |
| ResultsCalculations.Table | diploma_app/resources/js/Utils/resultsCalculations.js:83-94 | one row per discipline of the shared union, in order |
| ResultsCalculations.Final | diploma_app/resources/js/Utils/resultsCalculations.js:76-100 | defined also for fewer intermediate lists than tabs when no discipline exists (then every table is empty); each of the three tables has one row per discipline of the union, keyed by `discipline` and the tab labels only; unless a tab is labelled `discipline`, row i names the i-th discipline |
| ResultsCalculations.Overall | diploma_app/resources/js/Utils/resultsCalculations.js:108-161 | one row per discipline, in the tables' order, each average the rounded mean of the metric's non-null per-tab values, or null |
| ResultsCalculations.OverallMatchesTables | diploma_app/resources/js/Utils/resultsCalculations.js:83-160 | with distinct tab labels, overall row i and table row i name the same discipline, and the overall average is the rounded mean of that table row's non-null cells |
| ResultsCalculations.NoKeyedRows | diploma_app/resources/js/Utils/resultsCalculations.js:14-115 | without keyed rows (for example no tabs), every intermediate list, the three tables and the overall results are empty |
| DataProcessing.SanitizeShape | diploma_app/resources/js/Utils/dataProcessing.js:14-31 | undefined and blank strings become null; other scalars are kept; arrays keep their length; objects keep their keys in order |
| DataProcessing.Sanitize | diploma_app/resources/js/Utils/dataProcessing.js:14-31 | the output holds no undefined and no blank string anywhere |
| DataProcessing.SanitizeKeepsClean | diploma_app/resources/js/Utils/dataProcessing.js:14-31 | a clean value is returned unchanged |
| DataProcessing.SanitizeIdempotent | diploma_app/resources/js/Utils/dataProcessing.js:14-31 | sanitising twice equals sanitising once |
| DataProcessing.EmptyRow | diploma_app/resources/js/Utils/dataProcessing.js:80-87 | the empty row yields no total, performance, quality or grouping key |
| DataProcessing.TabCount | diploma_app/resources/js/Utils/dataProcessing.js:96 | `min(yearsOfWork, 5)`, with no tabs for a negative count |
| DataProcessing.GenerateTabs | diploma_app/resources/js/Utils/dataProcessing.js:95-101 | that many tabs; tab i is labelled for year startYear+i and holds one empty row per semester |
| DataProcessing.YearLabelInjective | diploma_app/resources/js/Utils/dataProcessing.js:98 | labels of different non-negative years differ |
| DataProcessing.GeneratedLabelsDistinct | diploma_app/resources/js/Utils/dataProcessing.js:95-98 | generated tab labels are pairwise distinct |
| DataProcessing.GeneratedTabsHaveNoResults | diploma_app/resources/js/Utils/dataProcessing.js:80-100 | fresh tabs produce empty intermediate lists, empty tables and empty overall results |
| DataProcessing.EnhanceRow | diploma_app/resources/js/Utils/dataProcessing.js:47-61 | the row's own fields are kept; the total is null exactly when the calculation is, and is otherwise the decimal digits of it |
| DataProcessing.EnhanceTabs | diploma_app/resources/js/Utils/dataProcessing.js:68-74 | tab count, labels and per-semester row counts are preserved |
| DataProcessing.EnhanceThenStrip | diploma_app/resources/js/Utils/dataProcessing.js:53-74 | dropping the added fields gives back the original tabs |
| DataProcessing.NormalizeConfig | diploma_app/resources/js/Utils/dataProcessing.js:148-152 | an empty category and non-positive counts or years become null; other values pass through |
| DataProcessing.NormalizeConfigIdempotent | diploma_app/resources/js/Utils/dataProcessing.js:148-152 | normalising twice equals normalising once |
| Validation.HasInvalidNulls | diploma_app/resources/js/Utils/validation.js:6-26 | the check is true exactly when some leaf outside the top-level `finalResults` member is null or '0.00' |
| Validation.FinalResultsIgnored | diploma_app/resources/js/Utils/validation.js:9 | whatever the top-level `finalResults` holds, it is not inspected |
| Validation.NestedFinalResultsChecked | diploma_app/resources/js/Utils/validation.js:9 | a `finalResults` key below the top level is inspected |
| Validation.Check | diploma_app/resources/js/Utils/validation.js:8-24 | below the top level (and off the skipped path) the recursive check finds exactly the reachable invalid leaves |
| Validation.LeafExamples | diploma_app/resources/js/Utils/validation.js:11-23 | empty arrays and objects are fine and a bare null is not; only null and '0.00' are invalid leaves |
| ErrorHandler.HandleApiError | diploma_app/resources/js/Utils/errorHandler.js:7-26 | every notification is an error; with `errors`, one per message in field then message order; otherwise exactly one, with the response message or the default |
| ErrorHandler.Fallback | diploma_app/resources/js/Utils/errorHandler.js:10-23 | the response message if non-empty, else the caller's default, else 'Произошла ошибка' |
| ErrorHandler.Notify | diploma_app/resources/js/Utils/errorHandler.js:15-19 | one error notification per message, in the order given |
| ErrorHandler.AllMessages | diploma_app/resources/js/Utils/errorHandler.js:15-19 | a message is raised exactly when some field carries it, and there are as many as the fields hold together |
| ErrorHandler.EmptyErrorsExample | diploma_app/resources/js/Utils/errorHandler.js:14-19 | an errors object without members raises no notification |
| ErrorHandler.DefaultMessageExample | diploma_app/resources/js/Utils/errorHandler.js:10-25 | with no errors and no message, the built-in default is shown |
| PhpValue.MergeLookup | diploma_app/app/Services/ArchiveService.php:29-34 | after `array_merge`, a key of the second array has its value and every other key keeps the first array's value |
| PhpValue.MergeKeys | diploma_app/app/Services/ArchiveService.php:29-34 | the merged keys are both arrays' keys, and the first array's keys keep their positions |
| ReportDataValidator.SprintfFills | diploma_app/app/Abstracts/ReportDataValidator.php:40 | `sprintf` of a format with one `%s` and no other '%' yields the text before the directive, the argument, then the text after it |
| ReportDataValidator.TableMessages | diploma_app/app/Abstracts/ReportDataValidator.php:16-17 | the two per-table messages are the Russian templates with the missing or mistyped key written in place of `%s` |
| ReportDataValidator.CheckRequired | diploma_app/app/Abstracts/ReportDataValidator.php:37-45 | the table loop passes exactly when each required table is a non-empty array |
| ReportDataValidator.ValidateReportData | diploma_app/app/Abstracts/ReportDataValidator.php:27-60 | validation passes exactly on non-empty data and final results, both tables as non-empty arrays, overall results or user present, and each of those an array when non-empty |
| ReportDataValidator.FirstFailureReported | diploma_app/app/Abstracts/ReportDataValidator.php:29-59 | the reported error's check fails and every check ranked before it passes: data, final results, each table's emptiness then type, optional keys, overall results, user |
| ReportDataValidator.ReportedErrorFails | diploma_app/app/Abstracts/ReportDataValidator.php:29-59 | the validator never reports a check that passes |
| ReportDataValidator.UserWithoutOverallResultsPasses | diploma_app/app/Abstracts/ReportDataValidator.php:47-59 | a payload with both tables and a user but no overall results passes |
| ReportDataValidationService.CheckTablesAgree | diploma_app/app/Services/ReportDataValidationService.php:27-35 | the service's table loop gives the same outcome and message as the validator's |
| ReportDataValidationService.Validate | diploma_app/app/Services/ReportDataValidationService.php:17-47 | the service passes on the same payloads as the validator and fails with the same message |
| ReportDataValidationService.UserOnlyPayloadAccepted | diploma_app/app/Services/ReportDataValidationService.php:37-46 | the service accepts tables plus a user without overall results |
| TitleCleanerService.SeparateCollapsesUnkept | diploma_app/app/Services/TitleCleanerService.php:24-25 | the two replacement passes turn each maximal run outside the kept class into exactly one '_' |
| TitleCleanerService.Clean | diploma_app/app/Services/TitleCleanerService.php:21-33 | for a kept class without whitespace, trim characters, '_' or '-' (as `\p{L}\p{N}` is): the output holds only kept characters, '_' and '-', no whitespace and never two '_' in a row, and deleting '_' and '-' gives the title's kept characters in order; position by position it is the trimmed title with each maximal run of unkept characters replaced by one '_', some of which a date turned into '-' |
| TitleCleanerService.CleanBlank | diploma_app/app/Services/TitleCleanerService.php:23-25 | an empty title, or one of trim characters only, cleans to "" |
| TitleCleanerService.RewriteDateEffect | diploma_app/app/Services/TitleCleanerService.php:27-30 | without a date match the text is unchanged; with one, the text before the first match is kept, that match becomes "_от_DD-MM-YYYY", and later copies of it are rewritten too |
| TitleCleanerService.RewriteDateDashed | diploma_app/app/Services/TitleCleanerService.php:27-30 | the date step changes nothing but some '_' into '-' |
| TitleCleanerService.FirstDate | diploma_app/app/Services/TitleCleanerService.php:27 | `preg_match` finds the leftmost "_от_DD_MM_YYYY" match, or reports that there is none |
| Text.PhpTrim | diploma_app/app/Services/TitleCleanerService.php:23 | `trim` returns a substring without trim characters at either end, empty exactly for all-trim input |
| Text.NatToStringRoundTrip | diploma_app/app/Services/ArchiveService.php:69-75 | a rendered timestamp reads back as the number |
| ArchiveService.Defaults | diploma_app/app/Services/ArchiveService.php:29-34 | the four default keys, in order |
| ArchiveService.MakeConfig | diploma_app/app/Services/ArchiveService.php:29-34 | the keys are the defaults' and the caller's; with distinct caller keys, a supplied key overrides its default and an unspecified key keeps its default |
| ArchiveService.DefaultSettings | diploma_app/app/Services/ArchiveService.php:29-32 | the default format, report type and last name are the literals of the constructor |
| ArchiveService.ResolvedLastName | diploma_app/app/Services/ArchiveService.php:68 | a missing or null `user.last_name` gives the configured default; a string last name is used as it is |
| ArchiveService.FillTemplate | diploma_app/app/Services/ArchiveService.php:71-75 | with the default format and brace-free values, the name is report type + _ + last name + _ + timestamp + .zip |
| ArchiveService.GenerateArchiveName | diploma_app/app/Services/ArchiveService.php:66-76 | with the default format and a brace-free report type and last name, the name is report type + _ + resolved last name + _ + timestamp + .zip |
| ArchiveService.DefaultArchiveName | diploma_app/app/Services/ArchiveService.php:29-75 | with the defaults, the name is Отчет_ + last name (or Unknown) + _ + timestamp + .zip for brace-free names |
| ArchiveService.PlaceholderInLastName | diploma_app/app/Services/ArchiveService.php:71-75 | the replacement is sequential: a last name "{timestamp}" is itself replaced by the timestamp |
| ArchiveService.CreateZip | diploma_app/app/Services/ArchiveService.php:44-58 | it succeeds exactly when the archive opens and every path exists, adding the files in order; otherwise it reports the open failure or the first missing path, having added only the files before it |
| ArchiveService.TempZipFilePath | diploma_app/app/Services/ArchiveService.php:84-91 | as written: it fails only when the directory is missing, cannot be created and is not writable |
| ArchiveService.UnwritableDirectoryAccepted | diploma_app/app/Services/ArchiveService.php:87-89 | an existing directory that is not writable is accepted |
| ArchiveService.CheckedTempZipFilePath | diploma_app/app/Services/ArchiveService.php:84-91 | corrected: it succeeds exactly when the directory exists or was created, and is writable |
| ArchiveService.CheckedPathIsWritable | diploma_app/app/Services/ArchiveService.php:84-91 | a path from the corrected check always lies in a writable directory, and wherever the original check fails the corrected one fails the same way |
| WordReportExporter.FormatTeacherName | diploma_app/app/Exports/WordReportExporter.php:245-253 | without a full name (user, last name, name and patronymic all set) the result is 'Шинакова С.В.' |
| WordReportExporter.TeacherNameParts | diploma_app/app/Exports/WordReportExporter.php:248-250 | with all three set, the result is last name, space, first letter of the name, '.', first letter of the patronymic, '.' |
| WordReportExporter.YearKeys | diploma_app/app/Exports/WordReportExporter.php:269-272 | the value columns are the first row's keys except `discipline` |
| WordReportExporter.RowCells | diploma_app/app/Exports/WordReportExporter.php:295-304 | 1 + yearCount cells: the discipline, then each year column's value, '-' for missing or null |
| WordReportExporter.GenericTable | diploma_app/app/Exports/WordReportExporter.php:262-306 | empty data adds nothing; it fails exactly when the first row is not an array or has no key besides `discipline`, with a TypeError or a division by zero; a table carries its header, the first row's keys other than `discipline` as value columns in `array_keys` order, and for data row i the cells read from row i under those columns ('-' where a key is missing); every row has 1 + yearCount cells and the value columns share the width left beside the discipline column |
| WordReportExporter.LaterKeysIgnored | diploma_app/app/Exports/WordReportExporter.php:269-271 | a key missing from the first row never becomes a column |
| WordReportExporter.GenerateReport | diploma_app/app/Exports/WordReportExporter.php:195-222 | it succeeds exactly when both tables can be added, failing with the first table's error first; with two non-empty tables the document has twelve blocks with the teacher line second, at position 7 the very table built from the average-score data and last the one built from the quality data, and no other tables |
| WordReportExporter.WordExport | diploma_app/app/Exports/WordReportExporter.php:180-222 | an invalid payload fails with the validator's message before any content; a document exists only for a valid payload and has that twelve-block layout, with its tables built from the payload's `averageScoreTable` and `qualityTable`; failures are validation, type or division errors, and a valid payload whose tables define value columns always yields a document |
| ExcelReportExporter.IntPercent | diploma_app/app/Exports/ExcelReportExporter.php:180 | an integer over 100 is an int when exact and a float otherwise, with the same value |
| ExcelReportExporter.QualityCell | diploma_app/app/Exports/ExcelReportExporter.php:180 | '-' exactly for a null quality; a non-numeric one is a TypeError |
| ExcelReportExporter.QualityReadBack | diploma_app/app/Exports/ExcelReportExporter.php:180 | a numeric quality cell times 100 gives back the overall quality |
| ExcelReportExporter.AverageCell | diploma_app/app/Exports/ExcelReportExporter.php:184 | the average score, or '-' when it is missing or null |
| ExcelReportExporter.DataRows | diploma_app/app/Exports/ExcelReportExporter.php:179-186 | it succeeds exactly when every quality cell does, with one row per result in input order; otherwise it fails with the error of the first failing row |
| ExcelReportExporter.PrepareSheetData | diploma_app/app/Exports/ExcelReportExporter.php:175-189 | a non-array input is a TypeError; an array gives the header row followed by one row per result exactly when every quality value can be divided |
| ExcelReportExporter.SheetRows | diploma_app/app/Exports/ExcelReportExporter.php:177-186 | row i+1 holds result i's discipline, its quality ('-' exactly when null) and its average cell |
| ExcelReportExporter.ChartFor | diploma_app/app/Exports/ExcelReportExporter.php:70 | a chart exists exactly when there is a row below the header |
| ExcelReportExporter.ChartCoversRows | diploma_app/app/Exports/ExcelReportExporter.php:72-84 | the range is sheet!range followed by digits that read back as the row count; the point count is that minus one |
| ExcelReportExporter.ChartResultsSheet | diploma_app/app/Exports/ExcelReportExporter.php:62-85 | it fails exactly when the sheet data cannot be prepared; the sheet carries the prepared rows under its title and a chart exactly when there is a discipline, whose ranges end at the last row |
| ExcelReportExporter.SheetsFor | diploma_app/app/Exports/ExcelReportExporter.php:30-38 | it fails exactly when the sheet data cannot be prepared; after the default sheet is removed: QualityResults then AverageScoreResults, with the same cells and a chart exactly when there is a discipline |
| ExcelReportExporter.ExcelExport | diploma_app/app/Exports/ExcelReportExporter.php:30-38 | overall results that are not an array are a TypeError; an array gives that workbook exactly when every quality value can be divided |
| ExcelReportExporter.MissingOverallResultsFails | diploma_app/app/Exports/ExcelReportExporter.php:67 | as written, with plain PHP warnings: a payload the validator accepts without overall results makes the export fail with a TypeError |
| ExcelReportExporter.CheckedExportSucceeds | diploma_app/app/Exports/ExcelReportExporter.php:175-189 | corrected: a valid payload with numeric or null qualities always exports; without overall results the sheets hold only the header and no chart |
| ExcelReportExporter.CheckedAgreesWithOverallResults | diploma_app/app/Exports/ExcelReportExporter.php:67 | when overall results are present, the corrected export equals the original |
| ReportExporter.CleanReportTitle | diploma_app/app/Exports/ReportExporter.php:131-143 | the cleaned title holds only [А-яa-zA-Z0-9], '_' and '-'; it has no whitespace, no "__" and no brace, and stripping separators gives the kept characters in order |
| ReportExporter.NarrowerThanLetterClass | diploma_app/app/Exports/ReportExporter.php:134 | 'Ё' lies outside А–я: "Ёж" cleans differently from a cleaner that keeps all letters |
| ReportExporter.AgreesWithOtherClass | diploma_app/app/Exports/ReportExporter.php:133-135 | on titles whose characters two classes classify alike, the two cleaners agree |
| ReportExporter.DefaultArchiveName | diploma_app/app/Exports/ReportExporter.php:153-164 | with the defaults, the name is Отчет_ + cleaned last name (or cleaned Unknown) + _ + timestamp + .zip |
| ReportExporter.GenerateArchiveName | diploma_app/app/Exports/ReportExporter.php:153-164 | with the default format and a brace-free report type, the name is report type + _ + cleaned resolved last name + _ + timestamp + .zip |
| ReportExporter.TempZipFilePath | diploma_app/app/Exports/ReportExporter.php:175-186 | it fails only when the directory is missing, cannot be created and still is not a directory, with the message naming it; otherwise a unique .zip path inside it |
| ReportExporter.Wrap | diploma_app/app/Exports/ReportExporter.php:102-120 | exceptions become plain exceptions; errors pass through unchanged |
| ReportExporter.WrapReadBack | diploma_app/app/Exports/ReportExporter.php:102-120 | the wrapped message starts with the Word prefix exactly for Word exceptions and with the Excel prefix exactly for spreadsheet exceptions; the original message follows the prefix |
| ReportExporter.ZipReport | diploma_app/app/Exports/ReportExporter.php:93-97 | the archive lists the Word file then the Excel file under the cleaned title; it fails, already wrapped with the export prefix, when the archive cannot be opened or with the first missing file |
| ReportExporter.Export | diploma_app/app/Exports/ReportExporter.php:86-121 | it succeeds exactly when both exporters, the temp path and the archive succeed; the archive then holds clean(title).docx then clean(title).xlsx under the templated name; otherwise the first failing step's error is rewrapped |
| ReportExporter.NewWordReportExporter | diploma_app/app/Exports/WordReportExporter.php:39 | the constructor takes an array, and an object is a TypeError |
| ReportExporter.NewReportExporter | diploma_app/app/Exports/ReportExporter.php:58-63 | the constructor accepts its two exporters exactly when both implement `ReportExporterInterface`; otherwise a TypeError (not an Exception) names the first argument that does not |
| ReportExporter.ExportDefaultAsWritten | diploma_app/app/Exports/ReportExporter.php:199-207 | as written: every call fails with a TypeError that no `catch (Exception)` handles |
| ReportExporter.ExportDefaultFirstFixOnly | diploma_app/app/Exports/ReportExporter.php:199-207 | as written at line 206: with the Word exporter given a configuration array, `new self(...)` still fails with a TypeError, because neither exporter implements `ReportExporterInterface` |
| ReportExporter.ExportDefault | diploma_app/app/Exports/ReportExporter.php:199-207 | corrected: an invalid payload fails with the export prefix and the validator's message; a valid, renderable payload with working I/O downloads the two files under the templated name |

## Left out

- HTTP and persistence: controllers, routes, models, repositories and `ReportService` are not part of this model. `ReportExporterInterface` itself is not part of this model either; only whether an exporter class implements it is (`ReportExporter.ExporterType`).
- Document rendering: PhpWord and PhpSpreadsheet styling, fonts, cell merges, chart axes and the writers are left out. The documents are modelled as the blocks and cells they contain.
- I/O and environment: `tempnam`, `ZipArchive`, `file_exists`, `mkdir`, `is_writable`, `time()`, `uniqid`, `storage_path`, `sys_get_temp_dir` and `response()->download` are parameters (booleans, predicates, paths and a timestamp).
- Floating point: every number is an exact real. IEEE artefacts of `toFixed`, `parseFloat` and PHP's float division are not reproduced.
- `formatDecimalValues` and `decimalToNumber` (Decimal.js conversions) are left out; collected values are taken as they are.
- DataProcessing.EnhanceRow: models the fields structurally. `enhanceRow` calls `.toNumber()` on performance and quality, which `calculations.js` returns as strings; the model stores the numbers instead of the call's failure.
- `calculateAverageScore` and `roundToDecimal` are arbitrary function parameters (`Calculations.Helpers`), because their definitions are not part of this model. Nothing is proved about the average-score values beyond where they go.
- Calculations.Performance: counts are natural numbers; negative or fractional counts from the UI are not modelled.
- JsObject.Put: integer-like keys are ordered by JavaScript's property order, but keys inherited from `Object.prototype` (such as `constructor`) are not modelled. A discipline code equal to one of them would behave differently in the source.
- ResultsCalculations.Final: requires at least as many intermediate lists as tabs unless no list names a discipline. With no discipline the source builds empty tables whatever the lengths, and so does the model; with at least one discipline and `intermediateResults` shorter than `tabsData` the source throws a TypeError, which is not modelled.
- DataProcessing.GeneratedLabelsDistinct: proved for start years from 0 on; labels of negative years are not covered.
- ErrorHandler.HandleApiError: `errors` is modelled as a list of fields with message lists. A non-object `errors` value or a non-array message list is not modelled.
- TitleCleanerService.Clean: `\p{L}\p{N}` is a class parameter (no Unicode tables). `\s` is a concrete set of Unicode spaces.
- TitleCleanerService.CleanBlank: covers titles made of PHP trim characters only. Titles made of other whitespace, such as a no-break space, are outside this lemma.
- ArchiveService.ResolvedLastName: the text of a float or array last name is not modelled (it gives ""); PHP would print the float or fail.
- ReportExporter.GenerateArchiveName: a non-string last name is passed to `cleanReportTitle` through the same text conversion. An array last name, which would be a TypeError, is not modelled.
- WordReportExporter.FormatTeacherName: float and array name parts fall back to 'Шинакова С.В.'; PHP would print a float, and an array part gives "Array" or a TypeError in `mb_substr`. Int and bool parts are converted as PHP converts them.
- WordReportExporter.RowCells: a data row that is a string is read as having no keys; PHP's string offsets are not modelled. The same holds for ExcelReportExporter.DataRows.
- ExcelReportExporter.QualityCell: only ints, floats and plain digit strings count as numeric. Other numeric strings ("1.5", " 7") are treated as a TypeError.
- PHP warnings: reading a missing array key, `mkdir` failing and similar warnings follow plain PHP semantics here (the read gives null, `mkdir` returns false, execution goes on). Under a framework error handler that turns warnings into `ErrorException`, as Laravel's does, these become exceptions instead: `$reportData['data']['overallResults']` at diploma_app/app/Exports/ExcelReportExporter.php:67, `$row['avgQuality']` and `$row['discipline']` at ExcelReportExporter.php:180-182, `$data[0]` at diploma_app/app/Exports/WordReportExporter.php:269, and the `mkdir` calls at diploma_app/app/Exports/ReportExporter.php:175-186 and diploma_app/app/Services/ArchiveService.php:87. Inside `export` such an exception would be wrapped with the export prefix by ReportExporter.php:114-119. That conversion is not modelled.
- PhpValue.Key: keys are assumed to be in PHP's canonical form, so a decimal integer string such as "0" is always `IntKey(0)` and never `StrKey("0")`. PHP converts such keys on insertion; the model does not, so a payload built with `StrKey("0")` would not be found by the `$data[0]` read.
- PhpValue.ArrayMerge: models `array_merge` on string keys only, which is how the configuration arrays use it. Integer keys, which `array_merge` renumbers and appends, are not modelled.
- WordReportExporter.WordExport: the Word configuration is the default one. Custom configuration arrays, which are merged shallowly, are left out.

## Findings

| source | as written | input that shows it | evidently intended | confidence | as-written member | corrected member |
|---|---|---|---|---|---|---|
| diploma_app/app/Exports/ReportExporter.php:203 | `exportDefault` passes the validator object to `new WordReportExporter(...)`, whose parameter is `array $config` | any call of `exportDefault` | construct the Word exporter with its default configuration and export | high, not executed | ReportExporter.ExportDefaultAsWritten | ReportExporter.ExportDefault |
| diploma_app/app/Exports/ReportExporter.php:58-63 | the constructor types both exporter parameters as `ReportExporterInterface`, which neither `WordReportExporter` nor `ExcelReportExporter` implements, so `new self(...)` at line 206 throws a TypeError even once line 203 is corrected | any call of `exportDefault` with the Word exporter built from an array | accept the two exporters (have them implement the interface) and export | high, not executed | ReportExporter.ExportDefaultFirstFixOnly | ReportExporter.ExportDefault |
| diploma_app/app/Exports/ExcelReportExporter.php:67 | the validator accepts a payload whose `user` is set but whose `overallResults` is missing; `prepareSheetData(array ...)` then receives null (with plain PHP warnings; under an error handler that turns warnings into exceptions, the missing-key read fails first, with an `ErrorException`) | tables plus `user`, no `data.overallResults` | treat missing overall results as none (a header-only sheet without a chart) | high, not executed | ExcelReportExporter.MissingOverallResultsFails | ExcelReportExporter.CheckedExportSucceeds |
| diploma_app/app/Services/ArchiveService.php:87-89 | `!file_exists && !mkdir && !is_writable` checks writability only when the directory is missing and cannot be created | an existing read-only directory | fail unless the directory exists (or is created) and is writable | medium, not executed | ArchiveService.UnwritableDirectoryAccepted | ArchiveService.CheckedTempZipFilePath |
