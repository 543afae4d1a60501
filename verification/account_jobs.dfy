/** The account-aggregation job in its two copies: `fetch_data_by_company`,
    `build_sms_message` and `fetch_account_data_job` of src/fetch_account_data.py
    (SMS, then Excel report) and of run/src/fetch_account_data.py (SMS only). The
    database and the clock are parameters; an exception is a `Failure`. Every
    member takes an `Edition`: `AsWritten` is the job as the code has it, while
    `Corrected` binds rows to counters with `Metrics.BindIntended` and builds the
    report with the corrected header and synthesized template. */
module AccountJobs {
  import opened Wrappers
  import Text
  import opened Variants
  import CompanyNames
  import ConfigLoader
  import Dates
  import SqlTemplate
  import Metrics
  import ExcelReport

  /** The entries of `jobs.fetch_account_data` the code reads. */
  datatype JobConfig = JobConfig(sql: SqlTemplate.Template, companies: seq<string>, phones: string)

  /** The database: for a connection configuration and an SQL text, the `count`
      column of the result rows in order, or `None` when connecting or querying
      raises. */
  type Database = (ConfigLoader.Value, string) -> Option<seq<int>>

  /** The exceptions that escape `fetch_data_by_company`. */
  datatype FetchError =
    | ConfigMissing(lookup: ConfigLoader.LookupError)   // `get_database` raises
    | SqlFailed(fill: SqlTemplate.FillError)            // `fill_sql` raises
    | DatabaseFailed                                    // connecting or querying raises
    | BindFailed(bind: Metrics.BindError)               // reading an absent row raises `IndexError`

  /** The office's data from the counts the database answered, or the binding's
      `IndexError`. */
  function BindCompany(edition: Edition, variant: Variant, company: string, counts: seq<int>)
    : Result<Metrics.CompanyData, FetchError>
  {
    match Metrics.Bind(edition, variant, counts)
    case Failure(e) => Failure(BindFailed(e))
    case Success(data) => Success(Metrics.CompanyData(company, data))
  }

  /** `fetch_data_by_company` of the src copy: the connection settings of the
      office, the filled SQL, the query, and the eight counters. Each step fails
      with its own error, and once the database has answered the office's data is
      the binding of that answer. */
  function FetchCompanySrc(edition: Edition, config: ConfigLoader.Value, job: JobConfig, db: Database, today: Dates.Date, company: string)
    : (r: Result<Metrics.CompanyData, FetchError>)
    requires Dates.ValidDate(today)
    ensures r.Success? ==> r.value.company == company && |r.value.data| == 8
    ensures r.Success? ==> forall k :: 0 <= k < 8 ==> r.value.data[k].key == Metrics.SrcLabels[k]
    ensures var s := ConfigLoader.GetDatabase(config, company);
            var q := SqlTemplate.FillSql(Src, job.sql, today);
            && (s.Failure? ==> r == Failure(ConfigMissing(s.error)))
            && (s.Success? && q.Failure? ==> r == Failure(SqlFailed(q.error)))
            && (s.Success? && q.Success? && db(s.value, q.value).None? ==> r == Failure(DatabaseFailed))
    ensures var s := ConfigLoader.GetDatabase(config, company);
            var q := SqlTemplate.FillSql(Src, job.sql, today);
            s.Success? && q.Success? && db(s.value, q.value).Some? ==>
              var bound := Metrics.Bind(edition, Src, db(s.value, q.value).value);
              && (r.Success? <==> bound.Success?)
              && (r.Success? ==> r.value.data == bound.value)
              && (r.Failure? ==> r.error == BindFailed(bound.error))
  {
    match ConfigLoader.GetDatabase(config, company)
    case Failure(e) => Failure(ConfigMissing(e))
    case Success(settings) =>
      match SqlTemplate.FillSql(Src, job.sql, today)
      case Failure(e) => Failure(SqlFailed(e))
      case Success(sql) =>
        match db(settings, sql)
        case None => Failure(DatabaseFailed)
        case Some(counts) => BindCompany(edition, Src, company, counts)
  }

  /** `fetch_data_by_company` of the run copy: the stored SQL text is queried as
      it is, without `fill_sql`, and four counters are bound. */
  function FetchCompanyRun(edition: Edition, config: ConfigLoader.Value, job: JobConfig, db: Database, company: string)
    : (r: Result<Metrics.CompanyData, FetchError>)
    ensures r.Success? ==> r.value.company == company && |r.value.data| == 4
    ensures r.Success? ==> forall k :: 0 <= k < 4 ==> r.value.data[k].key == Metrics.RunLabels[k]
    ensures r.Failure? ==> !r.error.SqlFailed?
    ensures var s := ConfigLoader.GetDatabase(config, company);
            && (s.Failure? ==> r == Failure(ConfigMissing(s.error)))
            && (s.Success? && db(s.value, SqlTemplate.Raw(job.sql)).None? ==> r == Failure(DatabaseFailed))
    ensures var s := ConfigLoader.GetDatabase(config, company);
            s.Success? && db(s.value, SqlTemplate.Raw(job.sql)).Some? ==>
              var bound := Metrics.Bind(edition, Run, db(s.value, SqlTemplate.Raw(job.sql)).value);
              && (r.Success? <==> bound.Success?)
              && (r.Success? ==> r.value.data == bound.value)
              && (r.Failure? ==> r.error == BindFailed(bound.error))
  {
    match ConfigLoader.GetDatabase(config, company)
    case Failure(e) => Failure(ConfigMissing(e))
    case Success(settings) =>
      match db(settings, SqlTemplate.Raw(job.sql))
      case None => Failure(DatabaseFailed)
      case Some(counts) => BindCompany(edition, Run, company, counts)
  }

  /** A partial answer: as written, the fetch raises `IndexError` at position 2 or
      at the first absent row, whichever comes later (the three-row answer of the
      run copy's comment among them), while the corrected fetch succeeds with `-1`
      for the absent counters. */
  lemma PartialAnswerRun(config: ConfigLoader.Value, job: JobConfig, db: Database, company: string)
    requires ConfigLoader.GetDatabase(config, company).Success?
    requires var answer := db(ConfigLoader.GetDatabase(config, company).value, SqlTemplate.Raw(job.sql));
             answer.Some? && 1 <= |answer.value| < 4
    ensures var n := |db(ConfigLoader.GetDatabase(config, company).value, SqlTemplate.Raw(job.sql)).value|;
            FetchCompanyRun(AsWritten, config, job, db, company) ==
              Failure(BindFailed(Metrics.IndexError(if n < 2 then 2 else n)))
    ensures var r := FetchCompanyRun(Corrected, config, job, db, company);
            r.Success? && r.value.data[3].count == Metrics.Missing
  {
    var counts := db(ConfigLoader.GetDatabase(config, company).value, SqlTemplate.Raw(job.sql)).value;
    Metrics.BindAsWrittenOutcome(Run, counts);
  }

  /** The same for the src copy: one to seven rows make the fetch as written raise,
      and the corrected one succeed. */
  lemma PartialAnswerSrc(config: ConfigLoader.Value, job: JobConfig, db: Database, today: Dates.Date, company: string)
    requires Dates.ValidDate(today)
    requires ConfigLoader.GetDatabase(config, company).Success?
    requires SqlTemplate.FillSql(Src, job.sql, today).Success?
    requires var answer := db(ConfigLoader.GetDatabase(config, company).value, SqlTemplate.FillSql(Src, job.sql, today).value);
             answer.Some? && 1 <= |answer.value| < 8
    ensures var n := |db(ConfigLoader.GetDatabase(config, company).value, SqlTemplate.FillSql(Src, job.sql, today).value).value|;
            FetchCompanySrc(AsWritten, config, job, db, today, company) ==
              Failure(BindFailed(Metrics.IndexError(if n < 2 then 2 else n)))
    ensures var r := FetchCompanySrc(Corrected, config, job, db, today, company);
            r.Success? && r.value.data[7].count == Metrics.Missing
  {
    var counts := db(ConfigLoader.GetDatabase(config, company).value, SqlTemplate.FillSql(Src, job.sql, today).value).value;
    Metrics.BindAsWrittenOutcome(Src, counts);
  }

  /** The run copy only ever asks the database about the stored template text: two
      databases that agree on that text give the same result. */
  lemma RunQueriesStoredText(edition: Edition, config: ConfigLoader.Value, job: JobConfig, db1: Database, db2: Database, company: string)
    requires forall settings :: db1(settings, SqlTemplate.Raw(job.sql)) == db2(settings, SqlTemplate.Raw(job.sql))
    ensures FetchCompanyRun(edition, config, job, db1, company) == FetchCompanyRun(edition, config, job, db2, company)
  {
  }

  /** The src copy asks the database about the filled text only. */
  lemma SrcQueriesFilledText(edition: Edition, config: ConfigLoader.Value, job: JobConfig, db1: Database, db2: Database, today: Dates.Date, company: string)
    requires Dates.ValidDate(today)
    requires SqlTemplate.FillSql(Src, job.sql, today).Success?
    requires forall settings :: db1(settings, SqlTemplate.FillSql(Src, job.sql, today).value) ==
                                db2(settings, SqlTemplate.FillSql(Src, job.sql, today).value)
    ensures FetchCompanySrc(edition, config, job, db1, today, company) == FetchCompanySrc(edition, config, job, db2, today, company)
  {
  }

  /** `for company in companies: res.append(fetch(company))`: the first exception
      ends the loop. */
  function FetchAll(fetch: string -> Result<Metrics.CompanyData, FetchError>, companies: seq<string>)
    : (r: Result<seq<Metrics.CompanyData>, FetchError>)
    ensures r.Success? ==> |r.value| == |companies|
    decreases |companies|
  {
    if |companies| == 0 then Success([])
    else
      var n := |companies| - 1;
      match FetchAll(fetch, companies[..n])
      case Failure(e) => Failure(e)
      case Success(init) =>
        match fetch(companies[n])
        case Failure(e) => Failure(e)
        case Success(last) => Success(init + [last])
  }

  /** The fetch of all offices succeeds iff every office's fetch does, and then
      holds their data in configured order; when it fails, it fails with the
      error of the first office whose fetch failed. */
  lemma {:induction false} FetchAllMeaning(fetch: string -> Result<Metrics.CompanyData, FetchError>, companies: seq<string>)
    ensures var r := FetchAll(fetch, companies);
            && (r.Success? <==> forall i :: 0 <= i < |companies| ==> fetch(companies[i]).Success?)
            && (r.Success? ==> forall i :: 0 <= i < |companies| ==> r.value[i] == fetch(companies[i]).value)
            && (r.Failure? ==> exists i :: 0 <= i < |companies| && fetch(companies[i]) == Failure(r.error) &&
                                          forall j :: 0 <= j < i ==> fetch(companies[j]).Success?)
    decreases |companies|
  {
    if |companies| > 0 {
      var n := |companies| - 1;
      var init := companies[..n];
      FetchAllMeaning(fetch, init);
      assert forall i :: 0 <= i < n ==> init[i] == companies[i];
      var r := FetchAll(fetch, companies);
      if FetchAll(fetch, init).Success? && fetch(companies[n]).Failure? {
        assert fetch(companies[n]) == Failure(r.error);
      }
    }
  }

  /** Once a prefix of the offices fails to fetch, the whole fetch fails with the
      same error: later offices are never asked. */
  lemma {:induction false} FetchAllStops(fetch: string -> Result<Metrics.CompanyData, FetchError>, companies: seq<string>, i: nat)
    requires i <= |companies| && FetchAll(fetch, companies[..i]).Failure?
    ensures FetchAll(fetch, companies) == FetchAll(fetch, companies[..i])
    decreases |companies|
  {
    if i < |companies| {
      var n := |companies| - 1;
      assert companies[..n][..i] == companies[..i];
      FetchAllStops(fetch, companies[..n], i);
    } else {
      assert companies[..i] == companies;
    }
  }


  const SmsHeader: string := "【生产环境】截至目前本月远传出账情况："

  /** One SMS line: the display name of the upper-cased code, a colon, and
      `str(data)` with braces and quotes removed. The line opens with the name,
      and no brace or single quote follows the colon. */
  function SmsLine(company: Metrics.CompanyData): (line: string)
    ensures var name := CompanyNames.GetName(Text.Upper(company.company));
            |line| > |name| && line[..|name|] == name && line[|name|] == ':'
    ensures var name := CompanyNames.GetName(Text.Upper(company.company));
            forall i :: |name| < i < |line| ==> line[i] !in Metrics.Stripped
  {
    var name := CompanyNames.GetName(Text.Upper(company.company));
    var text := Metrics.StripReprChars(Metrics.Repr(company.data));
    Text.DeleteRemoves(Metrics.Repr(company.data), Metrics.Stripped);
    var line := name + ":" + text;
    assert forall i :: |name| < i < |line| ==> line[i] == text[i - |name| - 1];
    line
  }

  /** For counters whose names carry no brace or quote, the line reads
      `name:key: count, key: count, ...`. */
  lemma SmsLineReadsPlain(company: Metrics.CompanyData)
    requires forall i :: 0 <= i < |company.data| ==> Metrics.PlainKey(company.data[i].key)
    ensures SmsLine(company) == CompanyNames.GetName(Text.Upper(company.company)) + ":" + Metrics.Plain(company.data)
  {
    Metrics.StripRepr(company.data);
  }

  /** A header line followed by one line per item, in order. */
  function HeaderLines<T>(header: string, line: T -> string, items: seq<T>): (lines: seq<string>)
    ensures |lines| == |items| + 1 && lines[0] == header
  {
    if |items| == 0 then [header] else HeaderLines(header, line, items[..|items| - 1]) + [line(items[|items| - 1])]
  }

  /** Line `i + 1` is the line of the `i`-th item. */
  lemma {:induction false} HeaderLinesAt<T>(header: string, line: T -> string, items: seq<T>, i: nat)
    requires i < |items|
    ensures HeaderLines(header, line, items)[i + 1] == line(items[i])
    decreases |items|
  {
    var init := items[..|items| - 1];
    if i < |items| - 1 {
      HeaderLinesAt(header, line, init, i);
      assert init[i] == items[i];
    }
  }

  /** No line breaks when neither the header nor any item's line does. */
  lemma HeaderLinesUnbroken<T>(header: string, line: T -> string, items: seq<T>)
    requires '\n' !in header
    requires forall i :: 0 <= i < |items| ==> '\n' !in line(items[i])
    ensures forall i :: 0 <= i < |HeaderLines(header, line, items)| ==> '\n' !in HeaderLines(header, line, items)[i]
  {
    var lines := HeaderLines(header, line, items);
    forall i | 0 <= i < |lines| ensures '\n' !in lines[i] {
      if i > 0 {
        HeaderLinesAt(header, line, items, i - 1);
      }
    }
  }

  /** The lines of the message: the header, then one line per office. */
  function SmsLines(all: seq<Metrics.CompanyData>): (lines: seq<string>)
    ensures |lines| == |all| + 1 && lines[0] == SmsHeader
  {
    HeaderLines(SmsHeader, SmsLine, all)
  }

  /** Line `i + 1` of the message is the line of the `i`-th office. */
  lemma SmsLinesAt(all: seq<Metrics.CompanyData>, i: nat)
    requires i < |all|
    ensures SmsLines(all)[i + 1] == SmsLine(all[i])
  {
    HeaderLinesAt(SmsHeader, SmsLine, all, i);
  }

  /** `build_sms_message`: the header and one line per office, separated by line
      breaks. The message opens with the header, and is the header alone when
      there are no offices. */
  function BuildSmsMessage(all: seq<Metrics.CompanyData>): (message: string)
    ensures |all| == 0 ==> message == SmsHeader
    ensures |message| >= |SmsHeader| && message[..|SmsHeader|] == SmsHeader
  {
    var lines := SmsLines(all);
    assert |lines| > 1 ==> Text.Join(lines, '\n') == SmsHeader + (['\n'] + Text.Join(lines[1..], '\n'));
    Text.Join(lines, '\n')
  }

  /** The source builds the message incrementally, appending `"\n" + line` for
      each office in turn; that is the same text. */
  lemma BuildSmsMessageAppend(all: seq<Metrics.CompanyData>, company: Metrics.CompanyData)
    ensures BuildSmsMessage([]) == SmsHeader
    ensures BuildSmsMessage(all + [company]) == BuildSmsMessage(all) + "\n" + SmsLine(company)
  {
    assert SmsLines([]) == [SmsHeader];
    assert (all + [company])[..|all|] == all;
    assert SmsLines(all + [company]) == SmsLines(all) + [SmsLine(company)];
    Text.JoinAppend(SmsLines(all), [SmsLine(company)], '\n');
  }

  /** No line of the message breaks when no office line does. */
  lemma SmsLinesUnbroken(all: seq<Metrics.CompanyData>)
    requires forall i :: 0 <= i < |all| ==> '\n' !in SmsLine(all[i])
    ensures forall i :: 0 <= i < |SmsLines(all)| ==> '\n' !in SmsLines(all)[i]
  {
    HeaderLinesUnbroken(SmsHeader, SmsLine, all);
  }


  /** Splitting the message at line breaks gives back the header and one line per
      office in input order, provided no line itself breaks. */
  lemma SmsMessageLines(all: seq<Metrics.CompanyData>)
    requires forall i :: 0 <= i < |all| ==> '\n' !in SmsLine(all[i])
    ensures Text.Split(BuildSmsMessage(all), '\n') == SmsLines(all)
  {
    var lines := SmsLines(all);
    SmsLinesUnbroken(all);
    Text.SplitJoin(lines, '\n');
  }

  /** The observable effects of a job run, in order. */
  datatype Effect =
    | SendSms(phones: string, content: string)
    | SaveReport(outcome: Result<ExcelReport.Sheet, ExcelReport.ExcelError>)
    | NoDataExcelWarning
    | NoDataSmsWarning

  /** The environment of the src job's Excel step. */
  datatype ReportFiles = ReportFiles(template: ExcelReport.TemplateFile, saveSucceeds: bool)

  /** `fetch_account_data_job` of the src copy: fetch every office; with data, send
      the SMS and then write the report; without, log the two warnings. */
  function SrcJob(edition: Edition, config: ConfigLoader.Value, job: JobConfig, db: Database, today: Dates.Date, files: ReportFiles)
    : (r: Result<seq<Effect>, FetchError>)
    requires Dates.ValidDate(today)
    ensures var fetched := FetchAll(c => FetchCompanySrc(edition, config, job, db, today, c), job.companies);
            && (r.Failure? <==> fetched.Failure?)
            && (r.Success? && |job.companies| == 0 ==> r.value == [NoDataExcelWarning, NoDataSmsWarning])
            && (r.Success? && |job.companies| > 0 ==>
                  r.value == [SendSms(job.phones, BuildSmsMessage(fetched.value)),
                              SaveReport(ExcelReport.BuildExcel(edition, files.template, fetched.value, files.saveSucceeds))])
  {
    match FetchAll(c => FetchCompanySrc(edition, config, job, db, today, c), job.companies)
    case Failure(e) => Failure(e)
    case Success(all) =>
      if |all| > 0 then
        Success([SendSms(job.phones, BuildSmsMessage(all)),
                 SaveReport(ExcelReport.BuildExcel(edition, files.template, all, files.saveSucceeds))])
      else Success([NoDataExcelWarning, NoDataSmsWarning])
  }

  /** In the src job, an SMS is sent exactly when there are offices to report and
      every fetch succeeded, and it lists them in configured order. */
  lemma SrcJobSendsIffOffices(edition: Edition, config: ConfigLoader.Value, job: JobConfig, db: Database, today: Dates.Date, files: ReportFiles)
    requires Dates.ValidDate(today)
    requires SrcJob(edition, config, job, db, today, files).Success?
    ensures var effects := SrcJob(edition, config, job, db, today, files).value;
            (exists e :: e in effects && e.SendSms?) <==> |job.companies| > 0
    ensures var effects := SrcJob(edition, config, job, db, today, files).value;
            |job.companies| > 0 ==> Text.Split(effects[0].content, '\n')[0] == SmsHeader
  {
    var effects := SrcJob(edition, config, job, db, today, files).value;
    var fetched := FetchAll(c => FetchCompanySrc(edition, config, job, db, today, c), job.companies).value;
    if |job.companies| > 0 {
      assert effects[0].SendSms?;
      SmsHeaderFirst(fetched);
    }
  }

  /** Line `i + 1` of the message opens with the corrected header name of office
      `i`. The corrected report heads column `2 + i` with that same name; the
      report as written does so when the configured code is already upper case. */
  lemma ReportNamesMatchSms(edition: Edition, template: ExcelReport.TemplateFile, all: seq<Metrics.CompanyData>, saveSucceeds: bool, i: nat)
    requires i < |all|
    requires ExcelReport.BuildExcel(edition, template, all, saveSucceeds).Success?
    ensures var name := ExcelReport.HeaderName(all[i].company);
            SmsLines(all)[i + 1] == name + ":" + Metrics.StripReprChars(Metrics.Repr(all[i].data))
    ensures edition == Corrected || Text.Upper(all[i].company) == all[i].company ==>
              ExcelReport.HeadedBy(ExcelReport.BuildExcel(edition, template, all, saveSucceeds).value, i,
                                   ExcelReport.HeaderName(all[i].company))
  {
    SmsLinesAt(all, i);
  }

  /** The header is a single line. */
  lemma SmsHeaderUnbroken()
    ensures '\n' !in SmsHeader
  {
  }

  /** The message always starts with the header line. */
  lemma SmsHeaderFirst(all: seq<Metrics.CompanyData>)
    ensures Text.Split(BuildSmsMessage(all), '\n')[0] == SmsHeader
  {
    var lines := SmsLines(all);
    SmsHeaderUnbroken();
    if |all| == 0 {
      Text.SplitJoin([SmsHeader], '\n');
    } else {
      var rest := Text.Join(lines[1..], '\n');
      assert Text.Join(lines, '\n') == lines[0] + ['\n'] + rest;
      SplitHead(SmsHeader, rest, '\n');
    }
  }

  /** The first part of `a + sep + b` is `a` when `a` has no separator. */
  lemma {:induction false} SplitHead(a: string, b: string, sep: char)
    requires sep !in a
    ensures Text.Split(a + [sep] + b, sep)[0] == a
    decreases |a|
  {
    if |a| == 0 {
      assert (a + [sep] + b)[0] == sep;
    } else {
      assert (a + [sep] + b)[1..] == a[1..] + [sep] + b;
      SplitHead(a[1..], b, sep);
      assert [a[0]] + a[1..] == a;
    }
  }

  /** `build_sms_message` of the run copy: fetch office after office and append
      each line as soon as it is fetched. */
  method RunBuildSmsMessage(edition: Edition, config: ConfigLoader.Value, job: JobConfig, db: Database) returns (r: Result<string, FetchError>)
    ensures var fetched := FetchAll(c => FetchCompanyRun(edition, config, job, db, c), job.companies);
            && (r.Success? <==> fetched.Success?)
            && (r.Success? ==> r.value == BuildSmsMessage(fetched.value))
            && (r.Failure? ==> r == Failure(fetched.error))
  {
    r := FetchAndBuild(c => FetchCompanyRun(edition, config, job, db, c), job.companies);
  }

  /** The loop of `build_sms_message`: the message grows by one line per
      successful fetch, and the first failing fetch ends it. */
  method FetchAndBuild(fetch: string -> Result<Metrics.CompanyData, FetchError>, companies: seq<string>)
    returns (r: Result<string, FetchError>)
    ensures r.Success? <==> FetchAll(fetch, companies).Success?
    ensures r.Success? ==> r.value == BuildSmsMessage(FetchAll(fetch, companies).value)
    ensures r.Failure? ==> r == Failure(FetchAll(fetch, companies).error)
  {
    var res: seq<Metrics.CompanyData> := [];
    var message := SmsHeader;
    assert SmsLines(res) == [SmsHeader];
    assert companies[..0] == [];
    for i := 0 to |companies|
      invariant FetchAll(fetch, companies[..i]) == Success(res)
      invariant message == BuildSmsMessage(res)
    {
      var data := fetch(companies[i]);
      assert companies[..i + 1][..i] == companies[..i];
      if data.Failure? {
        FetchAllStops(fetch, companies, i + 1);
        return Failure(data.error);
      }
      BuildSmsMessageAppend(res, data.value);
      res := res + [data.value];
      message := message + "\n" + SmsLine(data.value);
    }
    assert companies[..|companies|] == companies;
    return Success(message);
  }

  /** When the fetches before position `i` succeed and the one at `i` fails, the
      whole fetch fails with that error. */
  lemma FetchAllFirstFailure(fetch: string -> Result<Metrics.CompanyData, FetchError>, companies: seq<string>, i: int)
    requires 0 <= i < |companies| && fetch(companies[i]).Failure?
    requires forall j :: 0 <= j < i ==> fetch(companies[j]).Success?
    ensures FetchAll(fetch, companies) == Failure(fetch(companies[i]).error)
  {
    FetchAllMeaning(fetch, companies);
    var r := FetchAll(fetch, companies);
    var k :| 0 <= k < |companies| && fetch(companies[k]) == Failure(r.error) &&
             forall j :: 0 <= j < k ==> fetch(companies[j]).Success?;
    assert k == i;
  }


  /** `fetch_account_data_job` of the run copy: the message is always sent, even
      when it holds the header only. */
  method RunJob(edition: Edition, config: ConfigLoader.Value, job: JobConfig, db: Database) returns (r: Result<seq<Effect>, FetchError>)
    ensures var fetched := FetchAll(c => FetchCompanyRun(edition, config, job, db, c), job.companies);
            && (r.Failure? <==> fetched.Failure?)
            && (r.Success? ==> r.value == [SendSms(job.phones, BuildSmsMessage(fetched.value))])
    ensures |job.companies| == 0 ==> r == Success([SendSms(job.phones, SmsHeader)])
  {
    var message := RunBuildSmsMessage(edition, config, job, db);
    if message.Failure? {
      return Failure(message.error);
    }
    return Success([SendSms(job.phones, message.value)]);
  }
}
