/** The monthly configuration check (run/src/check_config.py): the system
    parameters 0125/0126 and the calendar rows of the target month are validated,
    and a three-line status message reports both verdicts. The loaded
    configuration is a parameter. Query results enter as `Option`s, `None`
    standing for a connection or query error. */
module ParameterCheck {
  import opened Wrappers
  import Text
  import Collections
  import Dates
  import ConfigLoader

  /** The database entry both checks connect to. */
  const CommonDatabase := "ds_common"

  /** What ends the job with an exception: the lookup of the database entry, which
      both checks make before their `try`, or the date arithmetic of the calendar
      check. */
  datatype CheckError =
    | LookupFailed(lookup: ConfigLoader.LookupError)
    | DateFailed(date: Dates.DateError)

  /** One row of `sys_param`. */
  datatype ParamRow = ParamRow(code: string, state: string, value: string)

  function CodeOf(row: ParamRow): string {
    row.code
  }

  /** `{item['param_code']: item for item in res}`: the last row of a code wins. */
  function IndexByCode(rows: seq<ParamRow>): map<string, ParamRow> {
    Collections.IndexBy(rows, CodeOf)
  }

  /** The code is present, enabled (`'Y'`), and holds the expected value. */
  predicate ParamIs(params: map<string, ParamRow>, code: string, value: string) {
    code in params && params[code].state == "Y" && params[code].value == value
  }

  /** The parameters are exactly 0125 and 0126, enabled, with values 2 and 3. */
  predicate ParametersAsExpected(params: map<string, ParamRow>) {
    && params.Keys == {"0125", "0126"}
    && ParamIs(params, "0125", "2")
    && ParamIs(params, "0126", "3")
  }

  /** A two-element set containing two distinct values is exactly those values. */
  lemma TwoOfTwo<T>(s: set<T>, a: T, b: T)
    requires a != b && a in s && b in s && |s| == 2
    ensures s == {a, b}
  {
    var rest := s - {a, b};
    assert s == rest + {a, b};
    assert |rest + {a, b}| == |rest| + 2;
  }

  /** Two distinct codes present in the index need two rows. */
  lemma TwoCodesNeedTwoRows(rows: seq<ParamRow>, a: string, b: string)
    requires a != b && a in IndexByCode(rows) && b in IndexByCode(rows)
    ensures |rows| >= 2
  {
    Collections.IndexByKeys(rows, CodeOf, a);
    Collections.IndexByKeys(rows, CodeOf, b);
    var i :| 0 <= i < |rows| && CodeOf(rows[i]) == a;
    var j :| 0 <= j < |rows| && CodeOf(rows[j]) == b;
    assert i != j;
  }

  /** The `try` block of `check_system_parameter`: false on a query error or on
      fewer than two rows; the code map must be the two expected codes or at least
      have two keys; then both parameters must be enabled with their expected
      values. The result is true exactly when the code map (last row per code) is
      0125 and 0126 with the expected state and values. */
  function JudgeParameters(result: Option<seq<ParamRow>>): (ok: bool)
    ensures ok <==> result.Some? && ParametersAsExpected(IndexByCode(result.value))
  {
    match result
    case None => false
    case Some(rows) =>
      if |rows| < 2 then
        assert !("0125" in IndexByCode(rows) && "0126" in IndexByCode(rows)) by {
          if "0125" in IndexByCode(rows) && "0126" in IndexByCode(rows) {
            TwoCodesNeedTwoRows(rows, "0125", "0126");
          }
        }
        false
      else
        var params := IndexByCode(rows);
        if params.Keys != {"0125", "0126"} && |params| != 2 then false
        else
          var ok := ParamIs(params, "0125", "2") && ParamIs(params, "0126", "3");
          assert ok ==> params.Keys == {"0125", "0126"} by {
            if ok && params.Keys != {"0125", "0126"} {
              assert |params.Keys| == |params|;
              TwoOfTwo(params.Keys, "0125", "0126");
            }
          }
          ok
  }

  /** A duplicated code is judged by its last row only. */
  lemma DuplicateCodeKeepsLastRow()
    ensures JudgeParameters(Some([ParamRow("0125", "N", "1"), ParamRow("0125", "Y", "2"), ParamRow("0126", "Y", "3")]))
    ensures !JudgeParameters(Some([ParamRow("0125", "Y", "2"), ParamRow("0125", "N", "1"), ParamRow("0126", "Y", "3")]))
  {
    var good := [ParamRow("0125", "N", "1"), ParamRow("0125", "Y", "2"), ParamRow("0126", "Y", "3")];
    var bad := [ParamRow("0125", "Y", "2"), ParamRow("0125", "N", "1"), ParamRow("0126", "Y", "3")];
    IndexOfThree(good);
    IndexOfThree(bad);
    assert IndexByCode(good).Keys == {"0125", "0126"};
    assert IndexByCode(bad).Keys == {"0125", "0126"};
  }

  /** The index of three rows, spelled out one insertion at a time. */
  lemma IndexOfThree(rows: seq<ParamRow>)
    requires |rows| == 3
    ensures IndexByCode(rows) == map[][rows[0].code := rows[0]][rows[1].code := rows[1]][rows[2].code := rows[2]]
  {
    var two := rows[..2];
    var one := two[..1];
    assert two[1] == rows[1] && one[0] == rows[0];
    assert Collections.IndexBy(one[..0], CodeOf) == map[];
    assert Collections.IndexBy(one, CodeOf) == map[][rows[0].code := rows[0]];
    assert Collections.IndexBy(two, CodeOf) == Collections.IndexBy(one, CodeOf)[rows[1].code := rows[1]];
  }

  /** A code other than 0125 and 0126 among the rows makes the check fail. */
  lemma ExtraCodeFails(rows: seq<ParamRow>, i: int)
    requires 0 <= i < |rows| && rows[i].code != "0125" && rows[i].code != "0126"
    ensures !JudgeParameters(Some(rows))
  {
    assert CodeOf(rows[i]) in IndexByCode(rows);
  }

  /** `check_system_parameter`: the database entry is looked up before the `try`,
      so a missing entry raises; otherwise the rows decide as in `JudgeParameters`. */
  function CheckSystemParameter(config: ConfigLoader.Value, result: Option<seq<ParamRow>>): (r: Result<bool, CheckError>)
    ensures r.Failure? <==> ConfigLoader.GetDatabase(config, CommonDatabase).Failure?
    ensures r.Failure? ==> r.error == LookupFailed(ConfigLoader.GetDatabase(config, CommonDatabase).error)
    ensures r.Success? ==> (r.value <==> result.Some? && ParametersAsExpected(IndexByCode(result.value)))
  {
    match ConfigLoader.GetDatabase(config, CommonDatabase)
    case Failure(e) => Failure(LookupFailed(e))
    case Success(_) => Success(JudgeParameters(result))
  }

  /** One row of `calendar_date`. */
  datatype CalendarRow = CalendarRow(calDay: string, isWorkDay: string, workDaySeq: string, isMakeDay: string)

  /** Days of the month on which the make-up flag must be set. */
  const MakeUpDays: set<string> := {"02", "03", "04", "05", "06"}

  /** The per-row constraints: the day part of `cal_day` equals `work_day_seq`,
      `is_work_day` is `'0'`, and `is_make_day` is `'Y'` on days 02..06 and `'N'`
      on every other day. */
  predicate RowSatisfiesConstraints(row: CalendarRow) {
    var day := Text.LastTwo(row.calDay);
    && day == row.workDaySeq
    && row.isWorkDay == "0"
    && row.isMakeDay == (if day in MakeUpDays then "Y" else "N")
  }

  /** The month whose calendar is checked: next month from the 25th on, the
      current month before. */
  function TargetMonth(today: Dates.Date): (r: Result<(nat, nat), Dates.DateError>)
    requires Dates.ValidDate(today)
    ensures r.Success? ==> Dates.MinYear <= r.value.0 <= Dates.MaxYear && 1 <= r.value.1 <= 12
    ensures today.day < 25 ==> r == Success((today.year, today.month))
    ensures today.day >= 25 && today.month < 12 ==> r == Success((today.year, today.month + 1))
    ensures today.day >= 25 && today.month == 12 && today.year < Dates.MaxYear ==> r == Success((today.year + 1, 1))
    ensures r.Failure? <==> today.day >= 25 && today.month == 12 && today.year == Dates.MaxYear
  {
    if today.day >= 25 then
      match Dates.OneMonthLater(today)
      case Failure(e) => Failure(e)
      case Success(later) => Success((later.year, later.month))
    else Success((today.year, today.month))
  }

  predicate StartsWith(s: string, prefix: string) {
    |prefix| <= |s| && s[..|prefix|] == prefix
  }

  /** `where cal_day like 'YYYY-MM%'`: the rows whose day starts with the prefix,
      in table order. */
  function SelectMonth(rows: seq<CalendarRow>, prefix: string): (selected: seq<CalendarRow>)
    ensures forall r :: r in selected <==> r in rows && StartsWith(r.calDay, prefix)
    decreases |rows|
  {
    if |rows| == 0 then []
    else
      var rest := SelectMonth(rows[1..], prefix);
      assert forall r :: r in rows <==> r == rows[0] || r in rows[1..];
      if StartsWith(rows[0].calDay, prefix) then [rows[0]] + rest else rest
  }

  /** The row loop of `check_work_day_jq`: the first row that breaks a constraint
      ends the check with false; an empty result passes. */
  method CheckCalendarRows(rows: seq<CalendarRow>) returns (ok: bool)
    ensures ok <==> forall i :: 0 <= i < |rows| ==> RowSatisfiesConstraints(rows[i])
    ensures |rows| == 0 ==> ok
  {
    if |rows| == 0 {
      return true;
    }
    for i := 0 to |rows|
      invariant forall j :: 0 <= j < i ==> RowSatisfiesConstraints(rows[j])
    {
      var item := rows[i];
      var day := Text.LastTwo(item.calDay);
      if day != item.workDaySeq || item.isWorkDay != "0" {
        return false;
      }
      if day in MakeUpDays {
        if item.isMakeDay != "Y" {
          return false;
        }
      } else {
        if item.isMakeDay != "N" {
          return false;
        }
      }
    }
    return true;
  }

  /** `check_work_day_jq`: the database entry is looked up and the target month
      computed outside the `try`, so either can raise, the lookup first; a query
      error gives false; otherwise every row of the target month must satisfy the
      constraints. */
  method CheckWorkDay(config: ConfigLoader.Value, today: Dates.Date, calendar: Option<seq<CalendarRow>>)
    returns (r: Result<bool, CheckError>)
    requires Dates.ValidDate(today)
    ensures r.Failure? <==> ConfigLoader.GetDatabase(config, CommonDatabase).Failure? || TargetMonth(today).Failure?
    ensures ConfigLoader.GetDatabase(config, CommonDatabase).Failure? ==>
              r == Failure(LookupFailed(ConfigLoader.GetDatabase(config, CommonDatabase).error))
    ensures ConfigLoader.GetDatabase(config, CommonDatabase).Success? && TargetMonth(today).Failure? ==>
              r == Failure(DateFailed(TargetMonth(today).error))
    ensures r.Success? ==>
              var (y, m) := TargetMonth(today).value;
              (r.value <==> (calendar.Some? &&
                forall row :: row in calendar.value && StartsWith(row.calDay, Dates.FormatYearMonth(y, m)) ==> RowSatisfiesConstraints(row)))
  {
    var database := ConfigLoader.GetDatabase(config, CommonDatabase);
    if database.Failure? {
      return Failure(LookupFailed(database.error));
    }
    var target := TargetMonth(today);
    if target.Failure? {
      return Failure(DateFailed(target.error));
    }
    var prefix := Dates.FormatYearMonth(target.value.0, target.value.1);
    if calendar.None? {
      return Success(false);
    }
    var rows := SelectMonth(calendar.value, prefix);
    var ok := CheckCalendarRows(rows);
    assert ok <==> forall row :: row in rows ==> RowSatisfiesConstraints(row) by {
      assert forall row :: row in rows <==> exists i :: 0 <= i < |rows| && rows[i] == row;
    }
    return Success(ok);
  }

  /** The lines of the status message. */
  datatype StatusLine =
    | StatusHeader
    | ParameterWindowCorrect
    | ParameterWindowNeedsAdjusting
    | CalendarCorrect
    | CalendarNeedsAdjusting

  /** The message of `check_config_job`: a header, the parameter verdict, the
      calendar verdict. */
  function StatusMessage(parameterOk: bool, calendarOk: bool): (msg: seq<StatusLine>)
    ensures |msg| == 3 && msg[0] == StatusHeader
    ensures msg[1] in {ParameterWindowCorrect, ParameterWindowNeedsAdjusting}
    ensures msg[1] == ParameterWindowCorrect <==> parameterOk
    ensures msg[2] in {CalendarCorrect, CalendarNeedsAdjusting}
    ensures msg[2] == CalendarCorrect <==> calendarOk
  {
    [StatusHeader,
     if parameterOk then ParameterWindowCorrect else ParameterWindowNeedsAdjusting,
     if calendarOk then CalendarCorrect else CalendarNeedsAdjusting]
  }

  /** `check_config_job`: run the parameter check, then the calendar check, and
      compose the message that is sent. Either check can raise, the parameter
      check first; then nothing is sent. */
  method CheckConfigJob(config: ConfigLoader.Value, today: Dates.Date, params: Option<seq<ParamRow>>, calendar: Option<seq<CalendarRow>>)
    returns (r: Result<seq<StatusLine>, CheckError>)
    requires Dates.ValidDate(today)
    ensures r.Failure? <==> ConfigLoader.GetDatabase(config, CommonDatabase).Failure? || TargetMonth(today).Failure?
    ensures ConfigLoader.GetDatabase(config, CommonDatabase).Failure? ==>
              r == Failure(LookupFailed(ConfigLoader.GetDatabase(config, CommonDatabase).error))
    ensures ConfigLoader.GetDatabase(config, CommonDatabase).Success? && TargetMonth(today).Failure? ==>
              r == Failure(DateFailed(TargetMonth(today).error))
    ensures r.Success? ==> |r.value| == 3 && r.value[0] == StatusHeader
    ensures r.Success? ==> (r.value[1] == ParameterWindowCorrect <==> params.Some? && ParametersAsExpected(IndexByCode(params.value)))
    ensures r.Success? ==>
              var (y, m) := TargetMonth(today).value;
              (r.value[2] == CalendarCorrect <==> (calendar.Some? &&
                forall row :: row in calendar.value && StartsWith(row.calDay, Dates.FormatYearMonth(y, m)) ==> RowSatisfiesConstraints(row)))
  {
    var parameterOk := CheckSystemParameter(config, params);
    if parameterOk.Failure? {
      return Failure(parameterOk.error);
    }
    var calendarOk := CheckWorkDay(config, today, calendar);
    if calendarOk.Failure? {
      return Failure(calendarOk.error);
    }
    return Success(StatusMessage(parameterOk.value, calendarOk.value));
  }
}
