/** The ordered structural checks a report payload must pass before it is
    exported (`validateReportData` of the abstract report validator). */
module ReportDataValidator {
  import opened Wrappers
  import opened PhpValue

  /** Why a payload is rejected, one case per check. */
  datatype ValidationError =
    | MissingData
    | MissingFinalResults
    | MissingFinalResultKey(key: string)
    | InvalidFinalResultKeyType(key: string)
    | MissingOptionalKeys
    | InvalidOverallResultsType
    | InvalidUserType

  const ErrorMissingData: string := "Отсутствует обязательный ключ 'data' в данных отчёта"
  const ErrorMissingFinalResults: string := "Отсутствует обязательный ключ 'finalResults' в 'data'"
  const ErrorMissingFinalResultKey: string := "Отсутствует обязательный ключ '" + "%s" + "' в 'data.finalResults'"
  const ErrorInvalidFinalResultKeyType: string := "Ключ '" + "%s" + "' в 'data.finalResults' должен быть массивом"
  const ErrorMissingOptionalKeys: string :=
    "Данные отчёта должны содержать хотя бы один из опциональных ключей: 'overallResults' или 'user'"
  const ErrorInvalidOverallResultsType: string := "Ключ 'overallResults' в 'data' должен быть массивом"
  const ErrorInvalidUserType: string := "Ключ 'user' должен быть массивом"

  /** The tables `finalResults` must hold, in the order they are checked. */
  const RequiredFinalResultKeys: seq<string> := ["averageScoreTable", "qualityTable"]

  /** `sprintf($format, $arg)` for a format with one `%s` directive and no
      other `%`. */
  function Sprintf(format: string, arg: string): (r: string)
    ensures |format| < 2 ==> r == format
    decreases |format|
  {
    if |format| < 2 then format
    else if format[..2] == "%s" then arg + format[2..]
    else [format[0]] + Sprintf(format[1..], arg)
  }

  /** The text holds no `%`, so no directive starts in it. */
  predicate NoDirective(p: string) {
    forall i :: 0 <= i < |p| ==> p[i] != '%'
  }

  /** The directive is replaced by the argument: the text before the
      first `%s` is kept, the argument follows, then the rest of the
      format as it stands. */
  lemma {:induction false} SprintfFills(p: string, q: string, arg: string)
    requires NoDirective(p)
    ensures Sprintf(p + "%s" + q, arg) == p + arg + q
    decreases |p|
  {
    var f := p + "%s" + q;
    if |p| == 0 {
      assert f == "%s" + q;
      SprintfAtDirective(q, arg);
    } else {
      assert f[0] == p[0] && |f| >= 2;
      SprintfStep(f, arg);
      assert f[1..] == p[1..] + "%s" + q;
      SprintfFills(p[1..], q, arg);
      assert [p[0]] + (p[1..] + arg + q) == p + arg + q;
    }
  }

  /** A format that starts with the directive. */
  lemma SprintfAtDirective(q: string, arg: string)
    ensures Sprintf("%s" + q, arg) == arg + q
  {
    var f := "%s" + q;
    assert f[..2] == "%s" && f[2..] == q;
  }

  /** A format that starts with a character other than `%` keeps it. */
  lemma SprintfStep(f: string, arg: string)
    requires |f| >= 2 && f[0] != '%'
    ensures Sprintf(f, arg) == [f[0]] + Sprintf(f[1..], arg)
  {
    assert f[..2][0] != "%s"[0];
  }

  /** The two table messages name the table between the quotes. */
  lemma TableMessages(k: string)
    ensures Message(MissingFinalResultKey(k))
      == "Отсутствует обязательный ключ '" + k + "' в 'data.finalResults'"
    ensures Message(InvalidFinalResultKeyType(k)) == "Ключ '" + k + "' в 'data.finalResults' должен быть массивом"
  {
    SprintfFills("Отсутствует обязательный ключ '", "' в 'data.finalResults'", k);
    SprintfFills("Ключ '", "' в 'data.finalResults' должен быть массивом", k);
  }

  /** The message of the InvalidArgumentException thrown for an error. */
  function Message(e: ValidationError): string {
    match e
    case MissingData => ErrorMissingData
    case MissingFinalResults => ErrorMissingFinalResults
    case MissingFinalResultKey(k) => Sprintf(ErrorMissingFinalResultKey, k)
    case InvalidFinalResultKeyType(k) => Sprintf(ErrorInvalidFinalResultKeyType, k)
    case MissingOptionalKeys => ErrorMissingOptionalKeys
    case InvalidOverallResultsType => ErrorInvalidOverallResultsType
    case InvalidUserType => ErrorInvalidUserType
  }

  /** The values the checks read. */
  function Data(r: seq<(Key, Php)>): Php { At(PArr(r), ["data"]) }
  function FinalResults(r: seq<(Key, Php)>): Php { At(PArr(r), ["data", "finalResults"]) }
  function FinalTable(r: seq<(Key, Php)>, key: string): Php { At(PArr(r), ["data", "finalResults", key]) }
  function OverallResults(r: seq<(Key, Php)>): Php { At(PArr(r), ["data", "overallResults"]) }
  function User(r: seq<(Key, Php)>): Php { At(PArr(r), ["user"]) }

  /** The loop over the required tables: each must be non-empty, then an
      array. */
  function CheckRequired(r: seq<(Key, Php)>, keys: seq<string>): (o: Outcome<ValidationError>)
    ensures o.Pass? <==> forall i :: 0 <= i < |keys| ==> FinalTable(r, keys[i]).PArr? && !Empty(FinalTable(r, keys[i]))
    decreases |keys|
  {
    if |keys| == 0 then Pass
    else if Empty(FinalTable(r, keys[0])) then Fail(MissingFinalResultKey(keys[0]))
    else if !FinalTable(r, keys[0]).PArr? then Fail(InvalidFinalResultKeyType(keys[0]))
    else
      var rest := CheckRequired(r, keys[1..]);
      assert forall i :: 1 <= i < |keys| ==> keys[i] == keys[1..][i - 1];
      rest
  }

  /** `validateReportData` on the payload `$this->reportData`: Pass, or
      the first failing check. It passes exactly on the payloads `Valid`
      describes. */
  function ValidateReportData(r: seq<(Key, Php)>): (o: Outcome<ValidationError>)
    ensures o.Pass? <==> Valid(r)
  {
    var c := CheckRequired(r, RequiredFinalResultKeys);
    assert c.Pass? <==> forall k :: k in RequiredFinalResultKeys ==> FinalTable(r, k).PArr? && !Empty(FinalTable(r, k));
    if Empty(Data(r)) then Fail(MissingData)
    else if Empty(FinalResults(r)) then Fail(MissingFinalResults)
    else if CheckRequired(r, RequiredFinalResultKeys).Fail? then CheckRequired(r, RequiredFinalResultKeys)
    else if Empty(OverallResults(r)) && Empty(User(r)) then Fail(MissingOptionalKeys)
    else if !Empty(OverallResults(r)) && !OverallResults(r).PArr? then Fail(InvalidOverallResultsType)
    else if !Empty(User(r)) && !User(r).PArr? then Fail(InvalidUserType)
    else Pass
  }

  /** What an exportable payload looks like: non-empty `data` and
      `data.finalResults`, both required tables non-empty arrays, and at
      least one of `data.overallResults` and `user`, each an array when
      present. */
  predicate Valid(r: seq<(Key, Php)>) {
    && !Empty(Data(r))
    && !Empty(FinalResults(r))
    && (forall k :: k in RequiredFinalResultKeys ==> FinalTable(r, k).PArr? && !Empty(FinalTable(r, k)))
    && (!Empty(OverallResults(r)) || !Empty(User(r)))
    && (Empty(OverallResults(r)) || OverallResults(r).PArr?)
    && (Empty(User(r)) || User(r).PArr?)
  }

  /** Whether the check that reports `e` fails on the payload. */
  predicate Fails(r: seq<(Key, Php)>, e: ValidationError) {
    match e
    case MissingData => Empty(Data(r))
    case MissingFinalResults => Empty(FinalResults(r))
    case MissingFinalResultKey(k) => k in RequiredFinalResultKeys && Empty(FinalTable(r, k))
    case InvalidFinalResultKeyType(k) =>
      k in RequiredFinalResultKeys && !Empty(FinalTable(r, k)) && !FinalTable(r, k).PArr?
    case MissingOptionalKeys => Empty(OverallResults(r)) && Empty(User(r))
    case InvalidOverallResultsType => !Empty(OverallResults(r)) && !OverallResults(r).PArr?
    case InvalidUserType => !Empty(User(r)) && !User(r).PArr?
  }

  /** The position of a check in the order the validator runs them:
      `data`, `finalResults`, then for each required table emptiness
      before type, then the optional keys, `overallResults` and `user`. */
  function Rank(e: ValidationError): nat {
    match e
    case MissingData => 0
    case MissingFinalResults => 1
    case MissingFinalResultKey(k) => if k == RequiredFinalResultKeys[0] then 2 else 4
    case InvalidFinalResultKeyType(k) => if k == RequiredFinalResultKeys[0] then 3 else 5
    case MissingOptionalKeys => 6
    case InvalidOverallResultsType => 7
    case InvalidUserType => 8
  }

  /** The reported error is a failing check, and every check that runs
      before it passes: the first failure decides the message. */
  lemma FirstFailureReported(r: seq<(Key, Php)>, e: ValidationError, e': ValidationError)
    requires ValidateReportData(r) == Fail(e)
    ensures Fails(r, e)
    ensures Rank(e') < Rank(e) ==> !Fails(r, e')
  {
    var avg := RequiredFinalResultKeys[0];
    var qual := RequiredFinalResultKeys[1];
    assert RequiredFinalResultKeys == [avg, qual];
    var c := CheckRequired(r, RequiredFinalResultKeys);
    if !Empty(Data(r)) && !Empty(FinalResults(r)) {
      assert c == if Empty(FinalTable(r, avg)) then Fail(MissingFinalResultKey(avg))
                  else if !FinalTable(r, avg).PArr? then Fail(InvalidFinalResultKeyType(avg))
                  else CheckRequired(r, [qual]);
      assert CheckRequired(r, [qual]) == if Empty(FinalTable(r, qual)) then Fail(MissingFinalResultKey(qual))
                  else if !FinalTable(r, qual).PArr? then Fail(InvalidFinalResultKeyType(qual))
                  else Pass;
    }
  }

  /** The validator never fails with a check that passes. */
  lemma ReportedErrorFails(r: seq<(Key, Php)>)
    ensures ValidateReportData(r).Fail? ==> Fails(r, ValidateReportData(r).error)
  {
    if ValidateReportData(r).Fail? {
      FirstFailureReported(r, ValidateReportData(r).error, MissingData);
    }
  }

  /** Reading a table through `data` and `finalResults`. */
  lemma TableAt(r: seq<(Key, Php)>, data: Php, fr: Php, key: string)
    requires Index(PArr(r), StrKey("data")) == data && Index(data, StrKey("finalResults")) == fr
    ensures FinalTable(r, key) == Index(fr, StrKey(key))
  {
    var path := ["data", "finalResults", key];
    assert path[1..] == ["finalResults", key];
    assert path[1..][1..] == [key];
    assert [key][1..] == [];
    assert At(fr, [key]) == Index(fr, StrKey(key));
    assert At(data, ["finalResults", key]) == At(fr, [key]);
    assert At(PArr(r), path) == At(data, ["finalResults", key]);
  }

  /** A payload with both final tables and a user but no overall
      results. */
  function UserOnlyPayload(avgTable: seq<(Key, Php)>, qualityTable: seq<(Key, Php)>, user: seq<(Key, Php)>)
    : seq<(Key, Php)>
  {
    [(StrKey("data"), PArr([(StrKey("finalResults"), PArr([
        (StrKey("averageScoreTable"), PArr(avgTable)),
        (StrKey("qualityTable"), PArr(qualityTable))]))])),
     (StrKey("user"), PArr(user))]
  }

  /** Such a payload passes when the tables and the user are non-empty,
      although it has no overall results. */
  lemma UserWithoutOverallResultsPasses(avgTable: seq<(Key, Php)>, qualityTable: seq<(Key, Php)>, user: seq<(Key, Php)>)
    requires |avgTable| > 0 && |qualityTable| > 0 && |user| > 0
    ensures ValidateReportData(UserOnlyPayload(avgTable, qualityTable, user)) == Pass
    ensures OverallResults(UserOnlyPayload(avgTable, qualityTable, user)) == PNull
    ensures FinalTable(UserOnlyPayload(avgTable, qualityTable, user), "averageScoreTable") == PArr(avgTable)
    ensures FinalTable(UserOnlyPayload(avgTable, qualityTable, user), "qualityTable") == PArr(qualityTable)
    ensures User(UserOnlyPayload(avgTable, qualityTable, user)) == PArr(user)
  {
    var r := UserOnlyPayload(avgTable, qualityTable, user);
    UserOnlyPayloadTables(avgTable, qualityTable, user);
    assert Valid(r) by {
      assert !Empty(PArr(avgTable)) && !Empty(PArr(qualityTable)) && !Empty(PArr(user));
      forall k | k in RequiredFinalResultKeys ensures FinalTable(r, k).PArr? && !Empty(FinalTable(r, k)) {
        assert k == "averageScoreTable" || k == "qualityTable";
      }
    }
  }

  /** The tables, the overall results and the user of such a payload. */
  lemma UserOnlyPayloadTables(avgTable: seq<(Key, Php)>, qualityTable: seq<(Key, Php)>, user: seq<(Key, Php)>)
    ensures var r := UserOnlyPayload(avgTable, qualityTable, user);
      && !Empty(Data(r)) && !Empty(FinalResults(r))
      && OverallResults(r) == PNull && User(r) == PArr(user)
      && FinalTable(r, "averageScoreTable") == PArr(avgTable)
      && FinalTable(r, "qualityTable") == PArr(qualityTable)
  {
    var r := UserOnlyPayload(avgTable, qualityTable, user);
    var fr := PArr([(StrKey("averageScoreTable"), PArr(avgTable)), (StrKey("qualityTable"), PArr(qualityTable))]);
    var data := PArr([(StrKey("finalResults"), fr)]);
    UserOnlyPayloadParts(avgTable, qualityTable, user);
    TableAt(r, data, fr, "averageScoreTable");
    TableAt(r, data, fr, "qualityTable");
  }

  /** Where the parts of such a payload are found. */
  lemma UserOnlyPayloadParts(avgTable: seq<(Key, Php)>, qualityTable: seq<(Key, Php)>, user: seq<(Key, Php)>)
    ensures var r := UserOnlyPayload(avgTable, qualityTable, user);
      var fr := PArr([(StrKey("averageScoreTable"), PArr(avgTable)), (StrKey("qualityTable"), PArr(qualityTable))]);
      var data := PArr([(StrKey("finalResults"), fr)]);
      && Index(PArr(r), StrKey("data")) == data && Index(data, StrKey("finalResults")) == fr
      && Data(r) == data && User(r) == PArr(user) && FinalResults(r) == fr && OverallResults(r) == PNull
      && Index(fr, StrKey("averageScoreTable")) == PArr(avgTable)
      && Index(fr, StrKey("qualityTable")) == PArr(qualityTable)
  {
    var fr := PArr([(StrKey("averageScoreTable"), PArr(avgTable)), (StrKey("qualityTable"), PArr(qualityTable))]);
    var data := PArr([(StrKey("finalResults"), fr)]);
    var r := [(StrKey("data"), data), (StrKey("user"), PArr(user))];
    assert Index(PArr(r), StrKey("data")) == data;
    assert "data" != "user" && "averageScoreTable" != "qualityTable";
    assert r[1..] == [(StrKey("user"), PArr(user))];
    assert Lookup(r, StrKey("user")) == Lookup(r[1..], StrKey("user"));
    assert Index(PArr(r), StrKey("user")) == PArr(user);
    assert Index(data, StrKey("finalResults")) == fr;
    assert Index(data, StrKey("overallResults")) == PNull;
    assert Index(fr, StrKey("averageScoreTable")) == PArr(avgTable);
    assert fr.entries[1..] == [(StrKey("qualityTable"), PArr(qualityTable))];
    assert Lookup(fr.entries, StrKey("qualityTable")) == Lookup(fr.entries[1..], StrKey("qualityTable"));
  }
}
