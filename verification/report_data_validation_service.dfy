/** `ReportDataValidationService::validate`, the stand-alone copy of the
    report validator, and its agreement with the abstract validator. */
module ReportDataValidationService {
  import opened Wrappers
  import opened PhpValue
  import ReportDataValidator

  const ErrorMissingData: string := "Отсутствует обязательный ключ 'data' в данных отчёта"
  const ErrorMissingFinalResults: string := "Отсутствует обязательный ключ 'finalResults' в 'data'"
  const ErrorMissingFinalResultKey: string := "Отсутствует обязательный ключ '" + "%s" + "' в 'data.finalResults'"
  const ErrorInvalidFinalResultKeyType: string := "Ключ '" + "%s" + "' в 'data.finalResults' должен быть массивом"
  const ErrorMissingOptionalKeys: string :=
    "Данные отчёта должны содержать хотя бы один из опциональных ключей: 'overallResults' или 'user'"
  const ErrorInvalidOverallResultsType: string := "Ключ 'overallResults' в 'data' должен быть массивом"
  const ErrorInvalidUserType: string := "Ключ 'user' должен быть массивом"

  /** The loop over the required tables, reporting the exception message. */
  function CheckTables(v: Php, keys: seq<string>): Outcome<string>
    decreases |keys|
  {
    if |keys| == 0 then Pass
    else if Empty(At(v, ["data", "finalResults", keys[0]])) then
      Fail(ReportDataValidator.Sprintf(ErrorMissingFinalResultKey, keys[0]))
    else if !At(v, ["data", "finalResults", keys[0]]).PArr? then
      Fail(ReportDataValidator.Sprintf(ErrorInvalidFinalResultKeyType, keys[0]))
    else CheckTables(v, keys[1..])
  }

  /** `validate($reportData)`: Pass, or the message of the
      InvalidArgumentException thrown. */
  function Validate(reportData: seq<(Key, Php)>): (o: Outcome<string>)
    ensures o == Reported(ReportDataValidator.ValidateReportData(reportData))
  {
    CheckTablesAgree(reportData, ReportDataValidator.RequiredFinalResultKeys);
    var v := PArr(reportData);
    if Empty(At(v, ["data"])) then Fail(ErrorMissingData)
    else if Empty(At(v, ["data", "finalResults"])) then Fail(ErrorMissingFinalResults)
    else if CheckTables(v, ["averageScoreTable", "qualityTable"]).Fail? then
      CheckTables(v, ["averageScoreTable", "qualityTable"])
    else if Empty(At(v, ["data", "overallResults"])) && Empty(At(v, ["user"])) then Fail(ErrorMissingOptionalKeys)
    else if !Empty(At(v, ["data", "overallResults"])) && !At(v, ["data", "overallResults"]).PArr? then
      Fail(ErrorInvalidOverallResultsType)
    else if !Empty(At(v, ["user"])) && !At(v, ["user"]).PArr? then Fail(ErrorInvalidUserType)
    else Pass
  }

  /** The message the abstract validator's outcome carries. */
  function Reported(o: Outcome<ReportDataValidator.ValidationError>): Outcome<string> {
    match o
    case Pass => Pass
    case Fail(e) => Fail(ReportDataValidator.Message(e))
  }

  /** The table loops of the two copies agree. */
  lemma {:induction false} CheckTablesAgree(r: seq<(Key, Php)>, keys: seq<string>)
    ensures CheckTables(PArr(r), keys) == Reported(ReportDataValidator.CheckRequired(r, keys))
    decreases |keys|
  {
    if |keys| > 0 {
      CheckTablesAgree(r, keys[1..]);
    }
  }

  /** The service accepts a payload with both tables and a user but
      without overall results. */
  lemma UserOnlyPayloadAccepted(avgTable: seq<(Key, Php)>, qualityTable: seq<(Key, Php)>, user: seq<(Key, Php)>)
    requires |avgTable| > 0 && |qualityTable| > 0 && |user| > 0
    ensures Validate(ReportDataValidator.UserOnlyPayload(avgTable, qualityTable, user)) == Pass
  {
    ReportDataValidator.UserWithoutOverallResultsPasses(avgTable, qualityTable, user);
  }
}
