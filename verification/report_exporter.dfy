/** The report exporter: it runs the Word and Excel exporters, packs both
    files into a ZIP archive under names derived from the cleaned report
    title, names the archive from the template, and rewraps failures with
    a message prefix chosen by the kind of failure. The exporters' files,
    the temporary path and the file system are parameters. */
module ReportExporter {
  import opened Wrappers
  import opened Text
  import opened PhpValue
  import opened TitleCleanerService
  import opened ArchiveService
  import opened ReportDataValidator
  import WordReportExporter
  import ExcelReportExporter

  const WordErrorPrefix := "Ошибка при создании Word-документа: "
  const ExcelErrorPrefix := "Ошибка при создании Excel-документа: "
  const ExportErrorPrefix := "Ошибка при экспорте отчета: "
  const TempDirErrorPrefix := "Не удалось создать директорию для временных файлов: "
  const WordExtension := ".docx"
  const ExcelExtension := ".xlsx"

  /** The class `[А-яa-zA-Z0-9]` the exporter keeps in titles: the
      Cyrillic range U+0410..U+044F, ASCII letters and digits. */
  predicate ExporterClass(c: char) {
    ('А' <= c <= 'я') || IsAsciiLetter(c) || IsDigit(c)
  }

  /** The exporter's class is a valid kept class for the cleaning passes. */
  lemma ExporterClassIsKeepClass()
    ensures KeepClass(ExporterClass)
  {
  }

  /** `cleanReportTitle`: the title cleaning of the service with the
      exporter's narrower class. The cleaned title holds only kept
      characters, '_' and '-'; it has no whitespace, no "__" and no braces,
      and stripping '_' and '-' gives back the title's kept characters in
      order. */
  function CleanReportTitle(title: string): (r: string)
    ensures forall k :: 0 <= k < |r| ==> ExporterClass(r[k]) || r[k] == '_' || r[k] == '-'
    ensures forall k :: 0 <= k < |r| ==> !IsPcreSpace(r[k])
    ensures forall k :: 0 <= k < |r| - 1 ==> !(r[k] == '_' && r[k + 1] == '_')
    ensures '{' !in r
    ensures Strip(r) == KeptChars(ExporterClass, title)
  {
    ExporterClassIsKeepClass();
    var r := Clean(ExporterClass, title);
    assert '{' !in r by {
      forall k | 0 <= k < |r| ensures r[k] != '{' {
        assert ExporterClass(r[k]) || r[k] == '_' || r[k] == '-';
      }
    }
    r
  }

  /** 'Ё' lies outside А–я: the exporter turns it into a separator where a
      cleaner that keeps all letters keeps it. */
  lemma NarrowerThanLetterClass(letters: char -> bool)
    requires KeepClass(letters) && letters('Ё') && letters('ж')
    ensures CleanReportTitle("Ёж") != Clean(letters, "Ёж")
  {
    ExporterClassIsKeepClass();
    assert "Ёж"[1..] == "ж";
    assert KeptChars(ExporterClass, "ж") == "ж";
    assert KeptChars(ExporterClass, "Ёж") == "ж";
    assert KeptChars(letters, "Ёж") == "Ёж";
  }

  /** A collapse pass looks only at the kept class on the characters of
      its input. */
  lemma {:induction false} CollapseCongruent(s: string, run: Run, k1: char -> bool, k2: char -> bool,
                                             rep: char, inRun: bool)
    requires forall i :: 0 <= i < |s| ==> k1(s[i]) == k2(s[i])
    ensures Collapse(s, run, k1, rep, inRun) == Collapse(s, run, k2, rep, inRun)
    decreases |s|
  {
    if |s| > 0 {
      assert k1(s[0]) == k2(s[0]);
      CollapseCongruent(s[1..], run, k1, k2, rep, true);
      CollapseCongruent(s[1..], run, k1, k2, rep, false);
    }
  }

  /** On a title whose characters the two classes classify alike, the
      exporter and a cleaner with the other class agree. */
  lemma AgreesWithOtherClass(keep: char -> bool, title: string)
    requires KeepClass(keep)
    requires forall i :: 0 <= i < |title| ==> keep(title[i]) == ExporterClass(title[i])
    ensures Clean(keep, title) == CleanReportTitle(title)
  {
    var t := PhpTrim(title);
    calc {
      Clean(keep, title);
      RewriteDate(Separate(t, keep));
      == { SeparateCollapsesUnkept(t, keep); }
      RewriteDate(Collapse(t, Unkept, keep, '_', false));
      == { TrimmedAgree(keep, title); CollapseCongruent(t, Unkept, keep, ExporterClass, '_', false); }
      RewriteDate(Collapse(t, Unkept, ExporterClass, '_', false));
      == { ExporterClassIsKeepClass(); SeparateCollapsesUnkept(t, ExporterClass); }
      RewriteDate(Separate(t, ExporterClass));
      CleanReportTitle(title);
    }
  }

  /** Trimming keeps the agreement of the two classes. */
  lemma TrimmedAgree(keep: char -> bool, title: string)
    requires forall i :: 0 <= i < |title| ==> keep(title[i]) == ExporterClass(title[i])
    ensures var t := PhpTrim(title);
      forall i :: 0 <= i < |t| ==> keep(t[i]) == ExporterClass(t[i])
  {
    var t := PhpTrim(title);
    var a, b :| 0 <= a <= b <= |title| && t == title[a..b];
    assert forall i :: 0 <= i < |t| ==> t[i] == title[a + i];
  }

  /** `generateArchiveName`: like the archive service's, but the last name
      goes through `cleanReportTitle`. */
  function GenerateArchiveName(config: Config, reportData: seq<(Key, Php)>, timestamp: nat): (name: string)
    ensures Setting(config, FormatKey) == DefaultFormat && '{' !in Setting(config, ReportTypeKey) ==>
      name == Setting(config, ReportTypeKey) + "_" + CleanReportTitle(ResolvedLastName(config, reportData)) + "_"
              + NatToString(timestamp) + ".zip"
  {
    FillTemplate(Setting(config, FormatKey), Setting(config, ReportTypeKey),
                 CleanReportTitle(ResolvedLastName(config, reportData)), timestamp)
  }

  /** With the default configuration the archive is named
      Отчет_<cleaned last name>_<timestamp>.zip, 'Unknown' standing in for
      a missing last name; cleaning leaves no brace for the later
      placeholders to match. */
  lemma DefaultArchiveName(tempDir: string, reportData: seq<(Key, Php)>, timestamp: nat)
    ensures LastNameValue(reportData).PNull? ==>
      GenerateArchiveName(MakeConfig(tempDir, []), reportData, timestamp)
      == DefaultReportType + "_" + CleanReportTitle(DefaultLastName) + "_" + NatToString(timestamp) + ".zip"
    ensures LastNameValue(reportData).PStr? ==>
      GenerateArchiveName(MakeConfig(tempDir, []), reportData, timestamp)
      == DefaultReportType + "_" + CleanReportTitle(LastNameValue(reportData).s) + "_"
         + NatToString(timestamp) + ".zip"
  {
    var c := MakeConfig(tempDir, []);
    DefaultSettings(tempDir);
    var ln := CleanReportTitle(ResolvedLastName(c, reportData));
    NoBraceInDefaults();
  }

  /** The exporter's own `createTempZipFilePath`: it fails only when the
      directory is missing, cannot be created and still is not there. */
  function TempZipFilePath(dir: string, dirExists: bool, created: bool, isDir: bool, uniqueId: string)
    : (r: Result<string, Throwable>)
    ensures r.Err? <==> !dirExists && !created && !isDir
    ensures r.Err? ==> r.error == Throwable(GenericException, TempDirErrorPrefix + dir)
    ensures r.Ok? ==> r.value == dir + "/" + UniquePrefix + uniqueId + ".zip"
  {
    if !dirExists && !created && !isDir then Err(Throwable(GenericException, TempDirErrorPrefix + dir))
    else Ok(dir + "/" + UniquePrefix + uniqueId + ".zip")
  }

  /** The prefix the handler for a kind of exception puts before its
      message. */
  function PrefixFor(k: ThrowableKind): string {
    match k
    case WordException => WordErrorPrefix
    case SpreadsheetException => ExcelErrorPrefix
    case _ => ExportErrorPrefix
  }

  /** The three handlers of `export`: PhpWord exceptions, PhpSpreadsheet
      exceptions and every other exception become an Exception whose
      message carries the matching prefix. Errors are not exceptions and
      pass through unchanged. */
  function Wrap(t: Throwable): (w: Throwable)
    ensures IsException(t.kind) ==> w.kind == GenericException
    ensures !IsException(t.kind) ==> w == t
  {
    if IsException(t.kind) then Throwable(GenericException, PrefixFor(t.kind) + t.message) else t
  }

  /** The handler that wrapped an exception, and its original message, can
      be read back from the wrapped message. */
  lemma WrapReadBack(t: Throwable)
    requires IsException(t.kind)
    ensures var m := Wrap(t).message;
      && (t.kind.WordException? <==> |m| >= |WordErrorPrefix| && m[..|WordErrorPrefix|] == WordErrorPrefix)
      && (t.kind.SpreadsheetException? <==> |m| >= |ExcelErrorPrefix| && m[..|ExcelErrorPrefix|] == ExcelErrorPrefix)
      && m[|PrefixFor(t.kind)|..] == t.message
  {
    var m := Wrap(t).message;
    var p := PrefixFor(t.kind);
    assert m == p + t.message;
    assert m[..|p|] == p;
    assert WordErrorPrefix[20] == 'W' && ExcelErrorPrefix[20] == 'E' && ExportErrorPrefix[11] == 'э';
    assert WordErrorPrefix[11] == 'с' && ExcelErrorPrefix[11] == 'с';
    if !t.kind.WordException? && |m| >= |WordErrorPrefix| {
      assert m[..|WordErrorPrefix|][20] == m[20];
    }
    if !t.kind.WordException? && |m| >= |WordErrorPrefix| {
      assert m[..|WordErrorPrefix|][11] == m[11];
    }
    if !t.kind.SpreadsheetException? && |m| >= |ExcelErrorPrefix| {
      assert m[..|ExcelErrorPrefix|][20] == m[20];
      assert m[..|ExcelErrorPrefix|][11] == m[11];
    }
  }

  /** What `export` hands to the download response: the archive's path,
      the name it is downloaded under, and the entries it holds. */
  datatype Download = Download(zipPath: string, archiveName: string, entries: seq<ZipFile>)

  /** The two archive entries: the Word file, then the Excel file, named
      after the cleaned title. */
  function ArchiveFiles(wordFile: string, excelFile: string, reportTitle: string): seq<ZipFile> {
    [ZipFile(wordFile, CleanReportTitle(reportTitle) + WordExtension),
     ZipFile(excelFile, CleanReportTitle(reportTitle) + ExcelExtension)]
  }

  /** `createZip` on the two report files as `export` calls it, with a
      failure already wrapped by the export handler: the archive cannot be
      opened, or the first file that does not exist is named. */
  method ZipReport(wordFile: string, excelFile: string, reportTitle: string, canOpen: bool, fileExists: string -> bool)
    returns (files: seq<ZipFile>, r: Outcome<Throwable>)
    ensures files == ArchiveFiles(wordFile, excelFile, reportTitle)
    ensures r.Pass? <==> canOpen && fileExists(wordFile) && fileExists(excelFile)
    ensures !canOpen ==> r == Fail(Throwable(GenericException, ExportErrorPrefix + OpenFailedMessage))
    ensures canOpen && !fileExists(wordFile) ==>
      r == Fail(Throwable(GenericException, ExportErrorPrefix + MissingFilePrefix + wordFile))
    ensures canOpen && fileExists(wordFile) && !fileExists(excelFile) ==>
      r == Fail(Throwable(GenericException, ExportErrorPrefix + MissingFilePrefix + excelFile))
  {
    files := ArchiveFiles(wordFile, excelFile, reportTitle);
    var added, outcome := CreateZip(files, canOpen, fileExists);
    if outcome.Fail? {
      assert files[0].path == wordFile && files[1].path == excelFile;
      if canOpen && !fileExists(wordFile) {
        assert |added| == 0;
        assert outcome.error == Throwable(GenericException, MissingFilePrefix + wordFile);
        assert ExportErrorPrefix + (MissingFilePrefix + wordFile) == ExportErrorPrefix + MissingFilePrefix + wordFile;
      } else if canOpen {
        assert |added| == 1;
        assert ExportErrorPrefix + (MissingFilePrefix + excelFile) == ExportErrorPrefix + MissingFilePrefix + excelFile;
      }
      assert IsException(outcome.error.kind) && PrefixFor(outcome.error.kind) == ExportErrorPrefix;
      return files, Fail(Wrap(outcome.error));
    }
    assert fileExists(files[0].path) && fileExists(files[1].path);
    r := Pass;
  }

  /** `export`: `word` and `excel` are what the two exporters return or
      throw, `zipPath` what `createTempZipFilePath` returns or throws;
      `canOpen` and `fileExists` describe the file system for
      `createZip`. */
  method Export(config: Config, reportData: seq<(Key, Php)>, reportTitle: string,
                word: Result<string, Throwable>, excel: Result<string, Throwable>,
                zipPath: Result<string, Throwable>, canOpen: bool, fileExists: string -> bool, timestamp: nat)
    returns (r: Result<Download, Throwable>)
    ensures r.Ok? <==> word.Ok? && excel.Ok? && zipPath.Ok? && canOpen
                       && fileExists(word.value) && fileExists(excel.value)
    ensures r.Ok? ==>
      r.value == Download(zipPath.value, GenerateArchiveName(config, reportData, timestamp),
                          ArchiveFiles(word.value, excel.value, reportTitle))
    ensures word.Err? ==> r == Err(Wrap(word.error))
    ensures word.Ok? && excel.Err? ==> r == Err(Wrap(excel.error))
    ensures word.Ok? && excel.Ok? && zipPath.Err? ==> r == Err(Wrap(zipPath.error))
    ensures word.Ok? && excel.Ok? && zipPath.Ok? && !canOpen ==>
      r == Err(Throwable(GenericException, ExportErrorPrefix + OpenFailedMessage))
    ensures word.Ok? && excel.Ok? && zipPath.Ok? && canOpen && !fileExists(word.value) ==>
      r == Err(Throwable(GenericException, ExportErrorPrefix + MissingFilePrefix + word.value))
    ensures word.Ok? && excel.Ok? && zipPath.Ok? && canOpen && fileExists(word.value) && !fileExists(excel.value) ==>
      r == Err(Throwable(GenericException, ExportErrorPrefix + MissingFilePrefix + excel.value))
  {
    if word.Err? {
      return Err(Wrap(word.error));
    }
    if excel.Err? {
      return Err(Wrap(excel.error));
    }
    if zipPath.Err? {
      return Err(Wrap(zipPath.error));
    }
    var files, outcome := ZipReport(word.value, excel.value, reportTitle, canOpen, fileExists);
    if outcome.Fail? {
      return Err(outcome.error);
    }
    r := Ok(Download(zipPath.value, GenerateArchiveName(config, reportData, timestamp), files));
  }

  /** The class `exportDefault` passes to the Word exporter's constructor. */
  const ValidatorClass := "App\\Services\\ReportDataValidationService"

  /** An argument of the Word exporter's constructor: a configuration
      array, or an object. */
  datatype ConstructorArg = ConfigArray(config: seq<(Key, Php)>) | Object(className: string)

  /** `new WordReportExporter($arg)`: the parameter is typed `array`, so an
      object is a TypeError. */
  function NewWordReportExporter(arg: ConstructorArg): (r: Result<seq<(Key, Php)>, Throwable>)
    ensures r.Ok? <==> arg.ConfigArray?
    ensures r.Err? ==> r.error.kind == TypeError
  {
    match arg
    case ConfigArray(c) => Ok(c)
    case Object(name) =>
      Err(Throwable(TypeError, "WordReportExporter::__construct(): Argument #1 ($config) must be of type array, "
                               + name + " given"))
  }

  /** `exportDefault` as written: it hands the validator object to the
      Word exporter's constructor, so it never reaches `export`, and the
      TypeError it throws is not an Exception. */
  method ExportDefaultAsWritten(reportData: seq<(Key, Php)>, reportTitle: string, config: Config, tempDir: string,
                                wordFile: string, excelFile: string, zipPath: Result<string, Throwable>,
                                canOpen: bool, fileExists: string -> bool, timestamp: nat)
    returns (r: Result<Download, Throwable>)
    ensures r.Err? && r.error.kind == TypeError && !IsException(r.error.kind)
  {
    var exporter := NewWordReportExporter(Object(ValidatorClass));
    if exporter.Err? {
      return Err(exporter.error);
    }
    r := ExportDefault(reportData, reportTitle, config, tempDir, wordFile, excelFile, zipPath, canOpen, fileExists, timestamp);
  }

  /** An exporter class `exportDefault` builds, and whether it declares
      `implements ReportExporterInterface`. */
  datatype ExporterType = ExporterType(name: string, implementsInterface: bool)

  /** Neither default exporter declares the interface the constructor's
      parameters are typed with. */
  const WordExporterClass := ExporterType("App\\Exports\\WordReportExporter", false)
  const ExcelExporterClass := ExporterType("App\\Exports\\ExcelReportExporter", false)

  const ExporterInterface := "App\\Contracts\\ReportExporterInterface"
  const WordArgPrefix := "ReportExporter::__construct(): Argument #2 ($wordExporter) must be of type "
  const ExcelArgPrefix := "ReportExporter::__construct(): Argument #3 ($excelExporter) must be of type "

  /** `new ReportExporter($archiveService, $wordExporter, $excelExporter)`:
      both exporter parameters are typed with the exporter interface, so a
      class that does not implement it is a TypeError, checked in parameter
      order. */
  function NewReportExporter(word: ExporterType, excel: ExporterType): (r: Result<(), Throwable>)
    ensures r.Ok? <==> word.implementsInterface && excel.implementsInterface
    ensures r.Err? ==> r.error.kind == TypeError && !IsException(r.error.kind)
    ensures !word.implementsInterface ==> r.Err? && WordArgPrefix <= r.error.message
    ensures word.implementsInterface && !excel.implementsInterface ==> r.Err? && ExcelArgPrefix <= r.error.message
  {
    if !word.implementsInterface then
      Err(Throwable(TypeError, WordArgPrefix + ExporterInterface + ", " + word.name + " given"))
    else if !excel.implementsInterface then
      Err(Throwable(TypeError, ExcelArgPrefix + ExporterInterface + ", " + excel.name + " given"))
    else Ok(())
  }

  /** `exportDefault` with only the Word exporter's constructor argument
      corrected: the exporters are built, but `new self(...)` still throws,
      and the TypeError is not an Exception. */
  method ExportDefaultFirstFixOnly(reportData: seq<(Key, Php)>, reportTitle: string, config: Config, tempDir: string,
                                   wordFile: string, excelFile: string, zipPath: Result<string, Throwable>,
                                   canOpen: bool, fileExists: string -> bool, timestamp: nat)
    returns (r: Result<Download, Throwable>)
    ensures r.Err? && r.error.kind == TypeError && !IsException(r.error.kind)
  {
    var self := NewReportExporter(WordExporterClass, ExcelExporterClass);
    if self.Err? {
      return Err(self.error);
    }
    r := ExportDefault(reportData, reportTitle, config, tempDir, wordFile, excelFile, zipPath, canOpen, fileExists, timestamp);
  }

  /** The Word exporter's `export`, saved to `wordFile`: invalid data is
      rejected with the validator's message, valid data whose tables name
      their columns gives the file. */
  method SaveWord(reportData: seq<(Key, Php)>, wordFile: string) returns (word: Result<string, Throwable>)
    ensures ValidateReportData(reportData).Fail? ==>
      word == Err(Throwable(InvalidArgument, Message(ValidateReportData(reportData).error)))
    ensures ValidateReportData(reportData).Pass?
      && WordReportExporter.ColumnsDefined(FinalTable(reportData, WordReportExporter.AverageTableKey))
      && WordReportExporter.ColumnsDefined(FinalTable(reportData, WordReportExporter.QualityTableKey))
      ==> word == Ok(wordFile)
  {
    var w := WordReportExporter.WordExport(reportData);
    word := if w.Ok? then Ok(wordFile) else Err(w.error);
  }

  /** The Excel exporter's `export`, saved to `excelFile`: valid data with
      numeric quality values gives the file. */
  method SaveExcel(reportData: seq<(Key, Php)>, excelFile: string) returns (excel: Result<string, Throwable>)
    ensures ValidateReportData(reportData).Pass? && ExcelReportExporter.NumericQualities(OverallResults(reportData))
      ==> excel == Ok(excelFile)
  {
    var x := ExcelReportExporter.ExcelExportChecked(reportData);
    excel := if x.Ok? then Ok(excelFile) else Err(x.error);
    if ValidateReportData(reportData).Pass? && ExcelReportExporter.NumericQualities(OverallResults(reportData)) {
      ExcelReportExporter.CheckedExportSucceeds(reportData);
    }
  }

  /** `exportDefault` as intended, with both construction faults corrected
      (the Word exporter given a configuration array, the exporters accepted
      by the constructor): default exporters and archive service,
      the caller's configuration merged onto the defaults. The Word
      exporter validates and builds the document, the Excel exporter reads
      absent overall results as none; `wordFile` and `excelFile` are the
      files they save to. */
  method ExportDefault(reportData: seq<(Key, Php)>, reportTitle: string, config: Config, tempDir: string,
                       wordFile: string, excelFile: string, zipPath: Result<string, Throwable>,
                       canOpen: bool, fileExists: string -> bool, timestamp: nat)
    returns (r: Result<Download, Throwable>)
    ensures ValidateReportData(reportData).Fail? ==>
      r == Err(Throwable(GenericException, ExportErrorPrefix + Message(ValidateReportData(reportData).error)))
    ensures ValidateReportData(reportData).Pass?
      && WordReportExporter.ColumnsDefined(FinalTable(reportData, WordReportExporter.AverageTableKey))
      && WordReportExporter.ColumnsDefined(FinalTable(reportData, WordReportExporter.QualityTableKey))
      && ExcelReportExporter.NumericQualities(OverallResults(reportData))
      && zipPath.Ok? && canOpen && fileExists(wordFile) && fileExists(excelFile)
      ==> r == Ok(Download(zipPath.value, GenerateArchiveName(MakeConfig(tempDir, config), reportData, timestamp),
                           ArchiveFiles(wordFile, excelFile, reportTitle)))
  {
    var word := SaveWord(reportData, wordFile);
    var excel := SaveExcel(reportData, excelFile);
    r := Export(MakeConfig(tempDir, config), reportData, reportTitle, word, excel, zipPath, canOpen, fileExists, timestamp);
  }
}
