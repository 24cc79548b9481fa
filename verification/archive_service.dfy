/** The archive service of the export layer: its configuration with
    defaults, the archive-name template, the temporary archive path and
    the ZIP builder over an abstract file system. */
module ArchiveService {
  import opened Wrappers
  import opened Text
  import opened PhpValue
  import opened Seqs

  const FormatKey := "archiveNameFormat"
  const ReportTypeKey := "reportType"
  const DefaultLastNameKey := "defaultLastName"
  const TempDirKey := "tempDir"

  const DefaultFormat := "{reportType}_{lastName}_{timestamp}.zip"
  const DefaultReportType := "Отчет"
  const DefaultLastName := "Unknown"

  const ReportTypePlaceholder := "{reportType}"
  const LastNamePlaceholder := "{lastName}"
  const TimestampPlaceholder := "{timestamp}"

  const OpenFailedMessage := "Не удалось создать ZIP-архив"
  const MissingFilePrefix := "Файл не существует: "
  const NotWritablePrefix := "Нет прав на запись в директорию: "
  const UniquePrefix := "ReportArchive_"

  /** A string-valued configuration array. */
  type Config = seq<(string, string)>

  /** The defaults the constructor merges the caller's configuration onto;
      the storage directory is a parameter. */
  function Defaults(tempDir: string): (d: Config)
    ensures Keys(d) == [FormatKey, ReportTypeKey, DefaultLastNameKey, TempDirKey]
  {
    [(FormatKey, DefaultFormat), (ReportTypeKey, DefaultReportType),
     (DefaultLastNameKey, DefaultLastName), (TempDirKey, tempDir)]
  }

  /** The service's configuration: `array_merge(defaults, $config)`. Its
      keys are the default keys and the caller's; a key the caller
      supplies overrides the default and every other key keeps its
      default. */
  function MakeConfig(tempDir: string, config: Config): (c: Config)
    ensures forall key :: key in Keys(c) <==> key in Keys(Defaults(tempDir)) || key in Keys(config)
    ensures DistinctKeys(config) ==>
      forall key :: Lookup(config, key).Some? ==> Lookup(c, key) == Lookup(config, key)
    ensures DistinctKeys(config) ==>
      forall key :: Lookup(config, key).None? ==> Lookup(c, key) == Lookup(Defaults(tempDir), key)
  {
    var d := Defaults(tempDir);
    var c := ArrayMerge(d, config);
    assert forall key :: key in Keys(c) <==> key in Keys(d) || key in Keys(config) by {
      forall key ensures key in Keys(c) <==> key in Keys(d) || key in Keys(config) {
        MergeKeys(d, config, key);
      }
    }
    assert DistinctKeys(config) ==> forall key :: Lookup(config, key).Some? ==> Lookup(c, key) == Lookup(config, key) by {
      if DistinctKeys(config) {
        forall key ensures Lookup(config, key).Some? ==> Lookup(c, key) == Lookup(config, key) {
          MergeLookup(d, config, key);
        }
      }
    }
    assert DistinctKeys(config) ==> forall key :: Lookup(config, key).None? ==> Lookup(c, key) == Lookup(d, key) by {
      if DistinctKeys(config) {
        forall key ensures Lookup(config, key).None? ==> Lookup(c, key) == Lookup(d, key) {
          MergeLookup(d, config, key);
        }
      }
    }
    c
  }

  /** A configured setting ('' only for a key the configuration lacks). */
  function Setting(c: Config, key: string): string {
    Lookup(c, key).GetOr("")
  }

  /** Without caller configuration the settings are the defaults. */
  lemma DefaultSettings(tempDir: string)
    ensures Setting(MakeConfig(tempDir, []), FormatKey) == DefaultFormat
    ensures Setting(MakeConfig(tempDir, []), ReportTypeKey) == DefaultReportType
    ensures Setting(MakeConfig(tempDir, []), DefaultLastNameKey) == DefaultLastName
    ensures Setting(MakeConfig(tempDir, []), TempDirKey) == tempDir
  {
    var d := Defaults(tempDir);
    assert MakeConfig(tempDir, []) == d;
    assert Lookup(d, FormatKey) == Some(DefaultFormat);
    assert d[0].0 != ReportTypeKey && d[0].0 != DefaultLastNameKey && d[0].0 != TempDirKey;
    assert d[1..][0].0 != DefaultLastNameKey && d[1..][0].0 != TempDirKey;
    assert d[1..][1..][0].0 != TempDirKey;
    assert Lookup(d[1..], ReportTypeKey) == Some(DefaultReportType);
    assert Lookup(d[1..][1..], DefaultLastNameKey) == Some(DefaultLastName);
    assert Lookup(d[1..][1..][1..], TempDirKey) == Some(tempDir);
    assert Lookup(d[1..], DefaultLastNameKey) == Lookup(d[1..][1..], DefaultLastNameKey);
    assert Lookup(d[1..][1..], TempDirKey) == Lookup(d[1..][1..][1..], TempDirKey);
    assert Lookup(d[1..], TempDirKey) == Lookup(d[1..][1..], TempDirKey);
  }

  /** `str_replace` with the three placeholders, applied one after the
      other to the template, as PHP does for array arguments. The default
      template yields reportType_lastName_timestamp.zip when neither
      substituted value contains a brace. */
  function FillTemplate(format: string, reportType: string, lastName: string, timestamp: nat): (name: string)
    ensures format == DefaultFormat && '{' !in reportType && '{' !in lastName ==>
      name == reportType + "_" + lastName + "_" + NatToString(timestamp) + ".zip"
  {
    if format == DefaultFormat && '{' !in reportType && '{' !in lastName then
      FillReportType(reportType);
      FillLastName(reportType, lastName);
      FillTimestamp((reportType + "_") + lastName, NatToString(timestamp));
      ReplaceAll(ReplaceAll(ReplaceAll(format, ReportTypePlaceholder, reportType), LastNamePlaceholder, lastName),
                 TimestampPlaceholder, NatToString(timestamp))
    else
      ReplaceAll(ReplaceAll(ReplaceAll(format, ReportTypePlaceholder, reportType), LastNamePlaceholder, lastName),
                 TimestampPlaceholder, NatToString(timestamp))
  }

  /** `$reportData['user']['last_name']`, null when any step is missing. */
  function LastNameValue(reportData: seq<(Key, Php)>): Php {
    At(PArr(reportData), ["user", "last_name"])
  }

  /** The last name the template receives: the payload's, or the
      configured default when it is null or missing. */
  function ResolvedLastName(config: Config, reportData: seq<(Key, Php)>): (s: string)
    ensures LastNameValue(reportData).PNull? ==> s == Setting(config, DefaultLastNameKey)
    ensures LastNameValue(reportData).PStr? ==> s == LastNameValue(reportData).s
  {
    var v := LastNameValue(reportData);
    if v.PNull? then Setting(config, DefaultLastNameKey) else StrVal(v).GetOr("")
  }

  /** `generateArchiveName`: the template filled with the report type, the
      payload's last name used verbatim, and the clock reading. Under the
      default template and brace-free values the name is
      reportType_lastName_timestamp.zip. */
  function GenerateArchiveName(config: Config, reportData: seq<(Key, Php)>, timestamp: nat): (name: string)
    ensures (Setting(config, FormatKey) == DefaultFormat && '{' !in Setting(config, ReportTypeKey)
             && '{' !in ResolvedLastName(config, reportData)) ==>
      name == Setting(config, ReportTypeKey) + "_" + ResolvedLastName(config, reportData) + "_"
              + NatToString(timestamp) + ".zip"
  {
    FillTemplate(Setting(config, FormatKey), Setting(config, ReportTypeKey),
                 ResolvedLastName(config, reportData), timestamp)
  }

  /** Replacement leaves a string alone when it lacks a character of the
      search string. */
  lemma ReplaceAllLacking(s: string, pat: string, rep: string, c: char)
    requires c in pat && c !in s
    ensures ReplaceAll(s, pat, rep) == s
  {
    assert forall j :: 0 <= j < |s| ==> !OccursAt(s, pat, j);
    ReplaceAllKeepsPrefix(s, pat, rep, |s|);
    assert s[..|s|] == s;
  }

  /** The default template after its leading placeholder. */
  const AfterReportType := "_{lastName}_{timestamp}.zip"
  /** The default template after its second placeholder. */
  const AfterLastName := "_{timestamp}.zip"

  /** The first replacement on the default template. */
  lemma FillReportType(reportType: string)
    ensures ReplaceAll(DefaultFormat, ReportTypePlaceholder, reportType) == reportType + AfterReportType
  {
    ReportTypeAtFront(reportType);
    ReportTypeOnce(reportType);
  }

  /** The default template starts with the report-type placeholder. */
  lemma ReportTypeAtFront(reportType: string)
    ensures ReplaceAll(DefaultFormat, ReportTypePlaceholder, reportType)
            == reportType + ReplaceAll(AfterReportType, ReportTypePlaceholder, reportType)
  {
    DefaultFormatSplits();
    ReplaceAllAtFrontOf(DefaultFormat, ReportTypePlaceholder, AfterReportType, reportType);
  }

  /** The default template is its leading placeholder and the rest. */
  lemma DefaultFormatSplits()
    ensures DefaultFormat == ReportTypePlaceholder + AfterReportType
  {
    var n := |ReportTypePlaceholder|;
    assert DefaultFormat[..n] == ReportTypePlaceholder;
    assert DefaultFormat[n..] == AfterReportType;
    assert DefaultFormat == DefaultFormat[..n] + DefaultFormat[n..];
  }

  /** The report-type placeholder occurs only once in the template. */
  lemma ReportTypeOnce(reportType: string)
    ensures ReplaceAll(AfterReportType, ReportTypePlaceholder, reportType) == AfterReportType
  {
    assert ReportTypePlaceholder[7] == 'T';
    ReplaceAllLacking(AfterReportType, ReportTypePlaceholder, reportType, 'T');
  }

  /** The second replacement, on the result of the first. */
  lemma FillLastName(reportType: string, lastName: string)
    requires '{' !in reportType
    ensures ReplaceAll(reportType + AfterReportType, LastNamePlaceholder, lastName)
            == (reportType + "_") + lastName + AfterLastName
  {
    LastNameAfterPrefix(reportType, lastName);
    ReplaceAllAtFront(LastNamePlaceholder, AfterLastName, lastName);
    LastNameOnce(lastName);
  }

  /** Nothing before the last-name placeholder is replaced. */
  lemma LastNameAfterPrefix(reportType: string, lastName: string)
    requires '{' !in reportType
    ensures ReplaceAll(reportType + AfterReportType, LastNamePlaceholder, lastName)
            == (reportType + "_") + ReplaceAll(LastNamePlaceholder + AfterLastName, LastNamePlaceholder, lastName)
  {
    assert reportType + AfterReportType == (reportType + "_") + (LastNamePlaceholder + AfterLastName);
    ReplaceAllSkipsPrefix(reportType + "_", LastNamePlaceholder + AfterLastName, LastNamePlaceholder, lastName);
  }

  /** The last-name placeholder occurs only once in the template. */
  lemma LastNameOnce(lastName: string)
    ensures ReplaceAll(AfterLastName, LastNamePlaceholder, lastName) == AfterLastName
  {
    assert LastNamePlaceholder[5] == 'N';
    ReplaceAllLacking(AfterLastName, LastNamePlaceholder, lastName, 'N');
  }

  /** The third replacement, when nothing before the last placeholder has
      a brace. */
  lemma FillTimestamp(pre: string, t: string)
    requires '{' !in pre
    ensures ReplaceAll(pre + AfterLastName, TimestampPlaceholder, t) == pre + "_" + t + ".zip"
  {
    assert pre + AfterLastName == (pre + "_") + (TimestampPlaceholder + ".zip");
    ReplaceAllSkipsPrefix(pre + "_", TimestampPlaceholder + ".zip", TimestampPlaceholder, t);
    ReplaceAllAtFront(TimestampPlaceholder, ".zip", t);
    ReplaceAllAbsent(".zip", TimestampPlaceholder, t);
  }

  /** With the default configuration the archive is named
      Отчет_<last name>_<timestamp>.zip, with 'Unknown' standing in for a
      missing last name. */
  lemma DefaultArchiveName(tempDir: string, reportData: seq<(Key, Php)>, timestamp: nat)
    requires LastNameValue(reportData).PStr? ==> '{' !in LastNameValue(reportData).s
    ensures LastNameValue(reportData).PNull? ==>
      GenerateArchiveName(MakeConfig(tempDir, []), reportData, timestamp)
      == DefaultReportType + "_" + DefaultLastName + "_" + NatToString(timestamp) + ".zip"
    ensures LastNameValue(reportData).PStr? ==>
      GenerateArchiveName(MakeConfig(tempDir, []), reportData, timestamp)
      == DefaultReportType + "_" + LastNameValue(reportData).s + "_" + NatToString(timestamp) + ".zip"
  {
    var c := MakeConfig(tempDir, []);
    DefaultSettings(tempDir);
    var ln := ResolvedLastName(c, reportData);
    assert GenerateArchiveName(c, reportData, timestamp) == FillTemplate(DefaultFormat, DefaultReportType, ln, timestamp);
    NoBraceInDefaults();
  }

  /** The default report type and last name have no braces. */
  lemma NoBraceInDefaults()
    ensures '{' !in DefaultReportType && '{' !in DefaultLastName
  {
  }

  /** The replacements run in sequence, so a placeholder inside the last
      name is itself replaced: a last name '{timestamp}' shows the clock
      reading twice. */
  lemma PlaceholderInLastName(timestamp: nat)
    ensures FillTemplate(DefaultFormat, DefaultReportType, TimestampPlaceholder, timestamp)
            == DefaultReportType + "_" + NatToString(timestamp) + "_" + NatToString(timestamp) + ".zip"
  {
    var t := NatToString(timestamp);
    NoBraceInDefaults();
    FillReportType(DefaultReportType);
    FillLastName(DefaultReportType, TimestampPlaceholder);
    TimestampTwice(DefaultReportType + "_", t);
  }

  /** The third replacement when the last name was the timestamp
      placeholder. */
  lemma TimestampTwice(pre: string, t: string)
    requires '{' !in pre
    ensures ReplaceAll(pre + TimestampPlaceholder + AfterLastName, TimestampPlaceholder, t)
            == pre + t + "_" + t + ".zip"
  {
    TimestampAfterPrefix(pre, t);
    TimestampInTail(t);
  }

  /** Up to and including the placeholder that came from the last name. */
  lemma TimestampAfterPrefix(pre: string, t: string)
    requires '{' !in pre
    ensures ReplaceAll(pre + TimestampPlaceholder + AfterLastName, TimestampPlaceholder, t)
            == pre + t + ReplaceAll(AfterLastName, TimestampPlaceholder, t)
  {
    assert pre + TimestampPlaceholder + AfterLastName == pre + (TimestampPlaceholder + AfterLastName);
    ReplaceAllSkipsPrefix(pre, TimestampPlaceholder + AfterLastName, TimestampPlaceholder, t);
    ReplaceAllAtFront(TimestampPlaceholder, AfterLastName, t);
  }

  /** The template's own timestamp placeholder. */
  lemma TimestampInTail(t: string)
    ensures ReplaceAll(AfterLastName, TimestampPlaceholder, t) == "_" + t + ".zip"
  {
    FillTimestamp([], t);
    assert [] + AfterLastName == AfterLastName;
  }

  /** A file to archive: where its content is and its name in the archive. */
  datatype ZipFile = ZipFile(path: string, name: string)

  /** `createZip`: opens the archive (`canOpen` says whether that succeeds),
      then adds the files in order, stopping at the first whose path does
      not exist. Returns the entries the archive received and the outcome. */
  method CreateZip(files: seq<ZipFile>, canOpen: bool, fileExists: string -> bool)
    returns (added: seq<ZipFile>, r: Outcome<Throwable>)
    ensures r.Pass? <==> canOpen && forall i :: 0 <= i < |files| ==> fileExists(files[i].path)
    ensures r.Pass? ==> added == files
    ensures !canOpen ==> added == [] && r == Fail(Throwable(GenericException, OpenFailedMessage))
    ensures |added| <= |files| && added == files[..|added|]
    ensures forall i :: 0 <= i < |added| ==> fileExists(added[i].path)
    ensures canOpen && r.Fail? ==>
      |added| < |files| && !fileExists(files[|added|].path)
      && r.error == Throwable(GenericException, MissingFilePrefix + files[|added|].path)
  {
    added := [];
    if !canOpen {
      r := Fail(Throwable(GenericException, OpenFailedMessage));
      return;
    }
    var i := 0;
    while i < |files|
      invariant 0 <= i <= |files|
      invariant added == files[..i]
      invariant forall j :: 0 <= j < i ==> fileExists(files[j].path)
    {
      if !fileExists(files[i].path) {
        r := Fail(Throwable(GenericException, MissingFilePrefix + files[i].path));
        return;
      }
      added := added + [files[i]];
      i := i + 1;
    }
    r := Pass;
  }

  /** `createTempZipFilePath` as written: the error is raised only when
      the directory is missing, cannot be created and is not writable;
      otherwise a unique `.zip` path inside the directory is returned. */
  function TempZipFilePath(tempDir: string, dirExists: bool, created: bool, writable: bool, uniqueId: string)
    : (r: Result<string, Throwable>)
    ensures r.Err? <==> !dirExists && !created && !writable
    ensures r.Err? ==> r.error == Throwable(GenericException, NotWritablePrefix + tempDir)
    ensures r.Ok? ==> r.value == tempDir + "/" + UniquePrefix + uniqueId + ".zip"
  {
    if !dirExists && !created && !writable then Err(Throwable(GenericException, NotWritablePrefix + tempDir))
    else Ok(tempDir + "/" + UniquePrefix + uniqueId + ".zip")
  }

  /** An existing directory without write permission is accepted, though
      the message promises a write-permission check. */
  lemma UnwritableDirectoryAccepted(tempDir: string, uniqueId: string)
    ensures TempZipFilePath(tempDir, true, false, false, uniqueId).Ok?
  {
  }

  /** The intended check: fail when the directory can be neither found nor
      created, or when it is not writable. */
  function CheckedTempZipFilePath(tempDir: string, dirExists: bool, created: bool, writable: bool, uniqueId: string)
    : (r: Result<string, Throwable>)
    ensures r.Ok? <==> (dirExists || created) && writable
    ensures r.Err? ==> r.error == Throwable(GenericException, NotWritablePrefix + tempDir)
    ensures r.Ok? ==> r.value == tempDir + "/" + UniquePrefix + uniqueId + ".zip"
  {
    if (!dirExists && !created) || !writable then Err(Throwable(GenericException, NotWritablePrefix + tempDir))
    else Ok(tempDir + "/" + UniquePrefix + uniqueId + ".zip")
  }

  /** The checked version only ever hands out a path the service can write
      to, and agrees with the original wherever the original refuses. */
  lemma CheckedPathIsWritable(tempDir: string, dirExists: bool, created: bool, writable: bool, uniqueId: string)
    ensures CheckedTempZipFilePath(tempDir, dirExists, created, writable, uniqueId).Ok? ==> writable
    ensures TempZipFilePath(tempDir, dirExists, created, writable, uniqueId).Err? ==>
      CheckedTempZipFilePath(tempDir, dirExists, created, writable, uniqueId)
      == TempZipFilePath(tempDir, dirExists, created, writable, uniqueId)
  {
  }
}
