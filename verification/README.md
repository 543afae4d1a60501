# Billing-operations checks and branch aggregation, modelled in Dafny

The repository runs a handful of cron jobs for a water utility's remote-meter
billing. This project models their decision logic with the I/O taken out. The
database, the HTTP calls to the XXL-Job scheduler, the clock and the SMS gateway
become inputs or recorded effects.

- **Scheduler-config audit** (`SchedulerAudit`, run/src/check_xxljob_config.py).
  Two hard-coded expectation tables are compared with the job list fetched from
  XXL-Job.
  - The fetched jobs are indexed by id.
  - Cron and parameter texts are compared after deleting blanks and newlines.
  - The trigger status must be exactly 1.
  - The verdict is a message of line tokens: header, per-entry lines, closing
    sentence.
- **Parameter and calendar check** (`ParameterCheck`, run/src/check_config.py).
  - `check_system_parameter` is modelled over the rows of `sys_param`.
  - `check_work_day_jq` is modelled over the calendar rows of a target month. From
    the 25th on, the target is the next month.
  - The three-line status message reports both verdicts.
- **Branch aggregation** (`AccountJobs`, `Metrics`, `SqlTemplate`, `ExcelReport`,
  `Dates`). This covers both copies of `fetch_account_data`: the one under src/
  and the one under run/.
  - The SQL template is filled with dates derived from today.
  - Query rows are bound positionally to named counters.
  - The SMS summary is modelled as real text, `str(dict)` rendering included.
  - For the Excel report, only the cell coordinates are modelled.
  - The two job bodies are modelled with their empty and non-empty branches.
- **Company names** (`CompanyNames`, run/src/rules/CompanyEnum.py). The fifteen
  member names map to display names, and `get_name` falls back to the code itself.
- **Configuration lookups** (`ConfigLoader`, run/src/utils/ConfigLoader.py). These
  are the dotted `get` with a default and the three strict lookups.

`Text`, `Collections`, `Dates` and `Wrappers` hold the small pieces of Python the
jobs lean on. These are `str.replace`, `split`, `upper`, `str(int)`, slicing,
`strftime`, dictionary comprehensions and date arithmetic. A Python exception
becomes the `Failure` branch of a `Result`. A failed query or connection becomes
`None`.

The model follows the code as written. Where the aggregation job's code has a
defect (see "## Findings"), the members that depend on it take an `Edition`.
`AsWritten` is the code: rows bound with its guards, the report header looked up
with the raw code, and the template synthesized with two label passes.
`Corrected` is the evidently intended behaviour. Every statement below about the
source's behaviour is about `AsWritten`. `Corrected` appears only in the
corrected halves of the findings and in the lemmas that compare the two.

Where the code and its own comments disagree, the model follows the code:

- The comment at run/src/check_config.py:68 says the result must hold exactly
  the two parameters. The code does not require exactly two rows. It builds a
  code-to-row map in which a repeated code keeps its last row (line 66), and it
  judges that map. Three rows, with code 0125 repeated and the good row last,
  therefore pass. `ParameterCheck.DuplicateCodeKeepsLastRow` states this.
- The docstring of `check_work_day_jq` (lines 107-112) lists three constraints,
  and none of them mentions `is_work_day`. The code at line 147 also requires
  `is_work_day == '0'` on every row of the month, and so does the model.

## Model

| member | source | states |
|---|---|---|
| SchedulerAudit.NormalizeIsOnePass | run/src/check_xxljob_config.py:175 | the two chained `replace` calls delete blanks and newlines in one pass |
| SchedulerAudit.Normalize | run/src/check_xxljob_config.py:175 | the normalised text holds no blank and no newline and is no longer than the original |
| SchedulerAudit.NormalizeDeletesOnlyBlanksAndNewlines | run/src/check_xxljob_config.py:175 | after normalisation no blank or newline remains; every other character, tab included, keeps its number of occurrences; normalising twice changes nothing |
| SchedulerAudit.NormalizeIgnoresInsertedWhitespace | run/src/check_xxljob_config.py:184 | inserting any run of blanks and newlines anywhere leaves the compared text unchanged |
| SchedulerAudit.TrailingNewlineMatchesTabDoesNot | run/src/check_xxljob_config.py:294-303 | a text with a trailing newline matches the original; one with a trailing tab does not |
| SchedulerAudit.IndexByIdLastWins | run/src/check_xxljob_config.py:147 | an id is in the index iff some fetched job has it, and then the index holds the last fetched job with that id |
| SchedulerAudit.LinesFor | run/src/check_xxljob_config.py:160-200 | one to three lines per entry; the "not found" line stands alone exactly when the id is missing |
| SchedulerAudit.LinesForShape | run/src/check_xxljob_config.py:172-200 | every line names the entry, and lines come in check order: cron, parameter, status, success |
| SchedulerAudit.LinesForContents | run/src/check_xxljob_config.py:160-200 | each failure line appears iff the entry was found and that check failed; the success line appears iff all three passed, and then it is the only line |
| SchedulerAudit.EntryLinesShape | run/src/check_xxljob_config.py:152-200 | every line produced for an entry reports on that entry |
| SchedulerAudit.EntriesLinesMembership | run/src/check_xxljob_config.py:152-200 | a line occurs among all entries' lines iff some entry produced it, so no entry is skipped |
| SchedulerAudit.CheckEntry | run/src/check_xxljob_config.py:153-200 | one loop iteration emits the entry's reference lines and reports pass iff the id is indexed with matching cron and parameter and status exactly 1 |
| SchedulerAudit.CheckEntries | run/src/check_xxljob_config.py:150-200 | the loop emits every entry's lines in table order, and `overall_success` holds iff every entry passes |
| SchedulerAudit.EntriesStep | run/src/check_xxljob_config.py:152-200 | one more entry appends its lines at the end and joins its outcome to the verdict |
| SchedulerAudit.CheckJobConfigs | run/src/check_xxljob_config.py:133-207 | the audit's message equals the reference: header, early exit or entry lines plus one verdict |
| SchedulerAudit.EarlyExits | run/src/check_xxljob_config.py:134-144 | a failed login gives header plus login notice only; a missing page or one without `data` gives header plus list notice only |
| SchedulerAudit.VerdictComesLastAndOnce | run/src/check_xxljob_config.py:202-207 | the message starts with the header and ends with exactly one verdict, the pass text iff all entries passed; everything between is an entry line |
| SchedulerAudit.NotFoundLines | run/src/check_xxljob_config.py:160-164 | a "not found" line names exactly the entries whose id is absent; any absence forces the mismatch verdict; every entry's lines still appear |
| SchedulerAudit.NotFoundInEntries | run/src/check_xxljob_config.py:160-164 | among the entry lines, "not found" for a description appears iff an entry with that description has a missing id |
| SchedulerAudit.OwnLines | run/src/check_xxljob_config.py:152-200 | with unique descriptions, the lines naming an entry are exactly that entry's lines |
| SchedulerAudit.FoundEntryLines | run/src/check_xxljob_config.py:172-200 | in the message, an entry's success line appears iff it passes, and each failure line iff its id is found and that check failed |
| SchedulerAudit.LargeMeterIdsDistinct | run/src/check_xxljob_config.py:69-122 | the large-meter table has seven entries with pairwise distinct job ids and pairwise distinct descriptions |
| SchedulerAudit.HouseholdIdsDistinct | run/src/check_xxljob_config.py:220-240 | the household table has three entries with pairwise distinct job ids and pairwise distinct descriptions |
| SchedulerAudit.CheckLargeMeterJobs | run/src/check_xxljob_config.py:62-210 | `check_job_configs_dlb` is the audit of the large-meter table under its own header |
| SchedulerAudit.CheckHouseholdJobs | run/src/check_xxljob_config.py:212-328 | `check_job_configs_hb` is the audit of the household table under its own header |
| ParameterCheck.JudgeParameters | run/src/check_config.py:57-94 | true iff the query succeeded and the code map (last row per code) is exactly 0125 and 0126, both enabled, with values 2 and 3; a query error gives false |
| ParameterCheck.CheckSystemParameter | run/src/check_config.py:44-96 | raises, with the lookup error, iff `database.ds_common` cannot be looked up in the configuration (line 50, before the `try`); otherwise true iff the query succeeded and the code map is exactly 0125 and 0126, both enabled, with values 2 and 3 |
| ParameterCheck.TwoCodesNeedTwoRows | run/src/check_config.py:62-63 | two distinct indexed codes need at least two rows, so the early return on fewer rows loses no passing case |
| ParameterCheck.DuplicateCodeKeepsLastRow | run/src/check_config.py:66 | a repeated code is judged by its last row: good-last passes, good-first fails |
| ParameterCheck.ExtraCodeFails | run/src/check_config.py:69-71 | any row with a code other than 0125 and 0126 makes the check fail |
| ParameterCheck.TargetMonth | run/src/check_config.py:117-121 | before the 25th the current month; from the 25th the next month, December rolling into January of the next year; fails only past year 9999 |
| ParameterCheck.SelectMonth | run/src/check_config.py:124-126 | the selected rows are exactly the rows whose day starts with the `YYYY-MM` prefix |
| ParameterCheck.CheckCalendarRows | run/src/check_config.py:135-165 | true iff every row meets the constraints (day suffix equals `work_day_seq`, `is_work_day` is `'0'`, make-up flag `'Y'` on days 02-06 and `'N'` elsewhere); an empty result passes |
| ParameterCheck.CheckWorkDay | run/src/check_config.py:106-172 | raises iff the `database.ds_common` lookup (line 114) fails or the target month overflows, with the lookup error first; otherwise true iff the query succeeded and every row of the target month meets the constraints |
| ParameterCheck.StatusMessage | run/src/check_config.py:180-192 | three lines: the header, a parameter verdict set by the parameter check alone, a calendar verdict set by the calendar check alone |
| ParameterCheck.CheckConfigJob | run/src/check_config.py:178-194 | the job raises and sends nothing iff the `database.ds_common` lookup fails (raised first, by the parameter check at line 181) or the target month overflows; otherwise the message carries the parameter verdict iff the parameters are as expected, and the calendar verdict iff every row of the target month meets the constraints (the current month before the 25th, the next month from then on) |
| CompanyNames.GetName | run/src/rules/CompanyEnum.py:20-26 | total: a member name gives one of the display values, any other string comes back unchanged |
| CompanyNames.CodesInvertMembers | run/src/rules/CompanyEnum.py:4-18 | every member's display value leads back to that member |
| CompanyNames.GetNameInjectiveOnMembers | run/src/rules/CompanyEnum.py:4-18 | distinct member names get distinct display names |
| CompanyNames.GetNameIdempotent | run/src/rules/CompanyEnum.py:4-26 | looking a result up again changes nothing, as no display value is a member name |
| CompanyNames.GetNameCaseSensitive | run/src/rules/CompanyEnum.py:24 | `ds_sjs` and unknown codes come back unchanged, while `DS_SJS` finds 石景山 |
| ConfigLoader.Index | run/src/utils/ConfigLoader.py:51 | `value[k]` succeeds iff the value is a mapping holding `k`; it is a `TypeError` iff the value is not a mapping |
| ConfigLoader.Walk | run/src/utils/ConfigLoader.py:50-51 | a `KeyError` names a key of the path; a non-empty path into a non-mapping is a `TypeError` at once |
| ConfigLoader.WalkAppend | run/src/utils/ConfigLoader.py:50-51 | walking a concatenated key path is walking the first part, then the rest from where it ended, stopping at the first failure |
| ConfigLoader.GetOrNone | run/src/utils/ConfigLoader.py:45-54 | without a default, a failed walk answers `None` and a successful one answers the value reached |
| ConfigLoader.Get | run/src/utils/ConfigLoader.py:45-54 | a dot-free key is one top-level lookup: the entry when the configuration is a mapping holding it, the default otherwise |
| ConfigLoader.SplitAtSeparator | run/src/utils/ConfigLoader.py:47 | splitting `a.b` gives the segments of `a` followed by those of `b` |
| ConfigLoader.GetDotted | run/src/utils/ConfigLoader.py:47-54 | `get("a.b")` is `get("b")` inside the value of `a` when `a` resolves, and the default otherwise |
| ConfigLoader.StrictLookupsAgreeWithGet | run/src/utils/ConfigLoader.py:33-43 | `get_database`, `get_config_by_job`, `get_sms_api` fail exactly where `get` of the same dotted path answers its default, and agree with it elsewhere |
| ConfigLoader.GetDatabase | run/src/utils/ConfigLoader.py:33-35 | succeeds iff the configuration has a `database` mapping holding the company, and then gives that entry; a non-mapping configuration is a `TypeError` |
| ConfigLoader.GetSmsApi | run/src/utils/ConfigLoader.py:37-39 | succeeds iff the configuration is a mapping holding `sms_api`, giving that entry; otherwise `KeyError("sms_api")` or `TypeError` |
| ConfigLoader.GetConfigByJob | run/src/utils/ConfigLoader.py:41-43 | the two indexing steps succeed iff the configuration has a `jobs` mapping holding the job name, then give that entry, and agree with walking the path `jobs`, job |
| Dates.LastDayOfPreviousMonth | src/fetch_account_data.py:33-35 | the result is a valid date whose next day is the first of today's month; it fails only in January of year 1 |
| Dates.LeapYearPrecededByCommonYear | src/fetch_account_data.py:29 | the year before a leap year is never a leap year, so 29 February has no same day last year |
| Dates.SameDayLastYear | src/fetch_account_data.py:29-30 | the same month and day one year earlier; fails iff today is 29 February or in year 1 |
| Dates.OneMonthLater | run/src/check_config.py:120 | the next month of the same year, or January of the next year after December; the day is today's, clipped to that month's length; a `ValueError` iff today is in December 9999 |
| Dates.FormatYearMonthRoundTrip | run/src/check_config.py:121 | `%Y-%m` renders seven characters that read back as the same year and month |
| SqlTemplate.Format | src/fetch_account_data.py:38-46 | formatting succeeds iff every field has a value; otherwise it fails on a field with no value after only bound fields |
| SqlTemplate.FormatAppend | src/fetch_account_data.py:38-46 | formatting a concatenation formats the parts in order, stopping at the first failure |
| SqlTemplate.FormatWithoutFields | run/src/fetch_account_data.py:51-52 | a template without fields formats to its own stored text |
| SqlTemplate.FormatBraceFree | src/fetch_account_data.py:38-46 | a well-formed template filled with brace-free values carries no brace |
| SqlTemplate.RawShowsFields | run/src/fetch_account_data.py:51 | the stored text of a template with a field contains `{` |
| SqlTemplate.Placeholders | src/fetch_account_data.py:26-46 | fails iff today is 29 February or in year 1; otherwise the names are exactly those `fill_sql` passes (four in run, seven in src) |
| SqlTemplate.PlaceholderSources | src/fetch_account_data.py:29-46 | `previous*` come from the month before today, `last_year*` from today's year minus one, `work_day` from today's day |
| SqlTemplate.PlaceholderValues | src/fetch_account_data.py:29-46 | the rendered values read back as the previous month and its year, the same month last year and that year, and today's day |
| SqlTemplate.PlaceholdersBraceFree | src/fetch_account_data.py:38-46 | no placeholder value contains a brace |
| SqlTemplate.FillSql | src/fetch_account_data.py:20-47 | fails on the date iff the placeholders do; otherwise succeeds iff every field of the template is among the names passed |
| SqlTemplate.FilledDiffersFromRaw | run/src/fetch_account_data.py:51-52 | a filled template with a field has no brace, so it differs from the stored text the run copy queries |
| Metrics.BindWith | src/fetch_account_data.py:61-70 | the binding succeeds iff no guard lets an absent row through; on failure it names the first such position; on success position `i` holds row `i` when guarded in, else -1 |
| Metrics.BindAsWritten | src/fetch_account_data.py:61-70 | a successful binding yields the declared counters in order; it can raise only when the result has at least one row but fewer rows than counters |
| Metrics.Bind | run/src/fetch_account_data.py:56-61 | in either edition a success yields the declared counters in order; only the binding as written fails, and only on a partial result |
| Metrics.BindIntended | src/fetch_account_data.py:59-70 | never raises; every counter holds its row's count when present and -1 otherwise |
| Metrics.BindAsWrittenOutcome | src/fetch_account_data.py:61-70 | as written: no rows give all -1; enough rows bind positionally; a count in between raises `IndexError` at position max(2, rows) |
| Metrics.BindAgreesWhereDefined | run/src/fetch_account_data.py:56-61 | wherever the binding as written does not raise, it equals the intended binding |
| Metrics.LabelsDistinct | src/fetch_account_data.py:61-70 | the counter names of each copy are pairwise distinct |
| Metrics.Lookup | src/fetch_account_data.py:141-152 | absent iff no entry has the key, otherwise the value of the first entry with it |
| Metrics.StripReprChars | src/fetch_account_data.py:172-174 | the three chained `replace` calls delete braces and single quotes in one pass |
| Metrics.StripRepr | src/fetch_account_data.py:172-174 | stripping `str(data)` leaves `key: count, ...` when no key has a brace or quote |
| Metrics.LabelsArePlain | src/fetch_account_data.py:61-70 | no counter name contains a brace or quote |
| ExcelReport.RowNames | src/fetch_account_data.py:143 | the row names in declared order |
| ExcelReport.RowMapDistinct | src/fetch_account_data.py:87-96 | row names are pairwise distinct, and so are the counter keys |
| ExcelReport.KeyToRowInverse | src/fetch_account_data.py:99 | `DATA_KEY_TO_ROW` has exactly the table's counter keys, and each leads back to its own entry |
| ExcelReport.IndexOf | src/fetch_account_data.py:144-149 | absent (the `ValueError`) iff the name is missing, otherwise the first position holding it |
| ExcelReport.IndexOfDistinct | src/fetch_account_data.py:143-144 | in a list without repeats, each element is found at its own position |
| ExcelReport.DataRowOfLink | src/fetch_account_data.py:140-146 | the counter of table entry `k` is written to row `3 + k` |
| ExcelReport.LastWriteToMeaning | src/fetch_account_data.py:137-153 | no write to a cell gives nothing; otherwise the result is the value of a write to the cell that no later write overrides |
| ExcelReport.ApplyIsLastWrite | src/fetch_account_data.py:137-153 | after the writes, a cell holds its last write, or its template value when never written |
| ExcelReport.DataWritesFrom | src/fetch_account_data.py:140-153 | one office's counter writes stay in its column and in rows 3 to 10 |
| ExcelReport.DataWritesCell | src/fetch_account_data.py:140-153 | row `3 + k` ends with counter `k` when the data has it and is not written otherwise |
| ExcelReport.DataWritesStep | src/fetch_account_data.py:140-153 | table entry `k` adds at most one write, to row `3 + k`, before the later entries' writes |
| ExcelReport.HeaderNameDiscrepancy | src/fetch_account_data.py:129 | as written, `ds_sjs` heads its column as `ds_sjs`; the corrected header shows 石景山 |
| ExcelReport.HeaderNameAsWritten | src/fetch_account_data.py:129 | `get_name` of the raw code: an unknown code heads its column unchanged, and an upper-case code gets the same name as the SMS line uses |
| ExcelReport.CompanyWrites | src/fetch_account_data.py:126-153 | office `i` writes only column `2 + i`, rows 2 to 10, in either edition |
| ExcelReport.ReportWrites | src/fetch_account_data.py:126-153 | the report writes only columns 2 to `1 + n` and rows 2 to 10 |
| ExcelReport.ReportColumn | src/fetch_account_data.py:126-133 | a cell of column `2 + i` is decided by office `i`'s writes alone |
| ExcelReport.ReportCells | src/fetch_account_data.py:140-153 | in the filled sheet, office `i`'s counter `k` is at row `3 + k`, column `2 + i`; an absent counter leaves the template's cell |
| ExcelReport.CompanyCounterCell | src/fetch_account_data.py:137-153 | within one office's writes, counter `k`'s cell is written last with the counter, or not at all |
| ExcelReport.ReportLeavesOtherCells | src/fetch_account_data.py:123-153 | cells outside the office columns and rows 2 to 10 keep the template's contents |
| ExcelReport.LabelWrites | src/fetch_account_data.py:117-121 | row names go down column 1, name `k` at `firstRow + k` |
| ExcelReport.LabelWritesCell | src/fetch_account_data.py:117-121 | after one label pass, a cell of column 1 holds the name for its row, or is untouched outside the band |
| ExcelReport.SynthesizedAsWrittenMislabels | src/fetch_account_data.py:112-121 | as written, the label beside counter `k` is name `k + 1`, a different name |
| ExcelReport.SynthesizedAsWritten | src/fetch_account_data.py:112-121 | as written, the title stays in row 1 while the first row name replaces the category label in row 2 |
| ExcelReport.SynthesizedIntendedLabels | src/fetch_account_data.py:117-118 | corrected, each counter row carries its own row name |
| ExcelReport.SynthesizedIntendedHeading | src/fetch_account_data.py:114-115 | corrected, rows 1 and 2 keep the title and the category label |
| ExcelReport.ReportHeader | src/fetch_account_data.py:129-137 | as written, `get_name` of office `i`'s raw code heads column `2 + i` of the filled sheet (corrected: of the upper-cased code) |
| ExcelReport.ReportHeaders | src/fetch_account_data.py:126-137 | as written, every office's column is headed by `get_name` of its raw code |
| ExcelReport.BuildExcel | src/fetch_account_data.py:104-164 | true iff the template could be read and the save succeeded; as written, the saved sheet has `get_name` of each raw code over its column, on the loaded template or the one synthesized with two label passes |
| AccountJobs.FetchCompanySrc | src/fetch_account_data.py:49-78 | a missing database entry, a `fill_sql` failure and a failed query each give their own error; once the database answers, the call succeeds iff the binding as written does, with exactly its counters, and otherwise fails with its `IndexError` |
| AccountJobs.FetchCompanyRun | run/src/fetch_account_data.py:44-69 | the stored text is queried unfilled; a missing database entry or a failed query gives its own error; once the database answers, the call succeeds iff the binding as written does, with exactly its counters, and otherwise fails with its `IndexError` |
| AccountJobs.PartialAnswerRun | run/src/fetch_account_data.py:54-61 | an answer of one to three rows, the three-row answer of line 54 among them, makes the fetch as written raise `IndexError` at max(2, rows); the corrected fetch succeeds with -1 for the absent counters |
| AccountJobs.PartialAnswerSrc | src/fetch_account_data.py:61-70 | an answer of one to seven rows makes the fetch as written raise `IndexError` at max(2, rows); the corrected fetch succeeds with -1 for the absent counters |
| AccountJobs.RunQueriesStoredText | run/src/fetch_account_data.py:51-52 | the run copy's result depends only on the database's answer to the stored template text |
| AccountJobs.SrcQueriesFilledText | src/fetch_account_data.py:56-57 | the src copy's result depends only on the database's answer to the filled text |
| AccountJobs.FetchAll | src/fetch_account_data.py:186-188 | on success, one result per configured office |
| AccountJobs.FetchAllMeaning | src/fetch_account_data.py:186-188 | succeeds iff every office's fetch does, holding their data in configured order; otherwise fails with the first failing office's error |
| AccountJobs.FetchAllStops | src/fetch_account_data.py:186-188 | once a prefix of the offices fails, the whole fetch gives that failure and later offices are never asked |
| AccountJobs.FetchAllFirstFailure | run/src/fetch_account_data.py:81-83 | with all earlier fetches successful, the first failing office's error is the result |
| AccountJobs.SmsLine | src/fetch_account_data.py:171-174 | an office line opens with the display name of the upper-cased code and a colon, and no brace or single quote follows the colon |
| AccountJobs.BuildSmsMessage | src/fetch_account_data.py:168-176 | the message opens with the header, and is the header alone when there are no offices |
| AccountJobs.SmsLineReadsPlain | src/fetch_account_data.py:171-174 | an office line reads `name:key: count, ...` for the upper-cased code's display name |
| AccountJobs.SmsLines | src/fetch_account_data.py:168-174 | the header followed by exactly one line per office |
| AccountJobs.SmsLinesAt | src/fetch_account_data.py:170-174 | line `i + 1` is the line of the `i`-th office |
| AccountJobs.BuildSmsMessageAppend | src/fetch_account_data.py:169-174 | with no office the message is the header; each further office appends a newline and its line |
| AccountJobs.SmsMessageLines | src/fetch_account_data.py:168-176 | splitting the message at newlines gives back the header and the office lines in order |
| AccountJobs.SmsHeaderFirst | src/fetch_account_data.py:169 | the first line of the message is the header |
| AccountJobs.SrcJob | src/fetch_account_data.py:180-195 | fails iff a fetch fails, so as written any partial query answer ends the job; with no offices, two warnings and nothing else; otherwise the SMS, then the report |
| AccountJobs.SrcJobSendsIffOffices | src/fetch_account_data.py:189-195 | a successful run sends an SMS iff there are offices, and that SMS opens with the header |
| AccountJobs.ReportNamesMatchSms | src/fetch_account_data.py:129-174 | line `i + 1` of the SMS opens with the corrected name of office `i`; the corrected report heads column `2 + i` with that name, and the report as written does so when the code is already upper case |
| AccountJobs.RunBuildSmsMessage | run/src/fetch_account_data.py:75-90 | succeeds iff every fetch does, giving the message of all offices in order; else the first failing fetch's error, the `IndexError` of a partial answer included |
| AccountJobs.FetchAndBuild | run/src/fetch_account_data.py:79-87 | the fetch-and-append loop gives the same message or error as fetching everything first |
| AccountJobs.RunJob | run/src/fetch_account_data.py:94-98 | sends its message iff every fetch succeeds, the bare header when no office is configured; as written a partial answer raises and nothing is sent |
| Collections.IndexBy | run/src/check_xxljob_config.py:147 | every element's key is indexed, and each indexed value carries its own key |
| Collections.IndexByKeys | run/src/check_config.py:66 | only keys that occur in the list are indexed |
| Collections.IndexByLast | run/src/check_config.py:66 | the last element with a key is the value kept |
| Collections.IndexByLastWins | run/src/check_xxljob_config.py:267 | every indexed value is the last element with its key |
| Collections.FlattenMembership | run/src/check_xxljob_config.py:271-319 | an element of the accumulated message comes from some part, and every part's elements are in it |
| Text.DeleteRemoves | run/src/check_xxljob_config.py:175 | no deleted character survives, and the text does not grow |
| Text.DeleteKeepsOthers | run/src/check_xxljob_config.py:184 | every other character keeps its number of occurrences |
| Text.DeleteIdempotent | run/src/check_xxljob_config.py:294 | deleting twice deletes nothing more |
| Text.DeleteTwice | run/src/check_xxljob_config.py:303 | two successive deletion passes equal one pass over both character sets |
| Text.LastTwo | run/src/check_config.py:141 | `s[-2:]` has length min(2, len s) and is a suffix of `s` |
| Text.Split | run/src/utils/ConfigLoader.py:47 | at least one part, none containing the separator |
| Text.JoinSplit | run/src/utils/ConfigLoader.py:47 | joining the parts of a split gives the text back |
| Text.SplitJoin | run/src/utils/ConfigLoader.py:47 | splitting a join of separator-free parts gives the parts back |
| Text.Upper | src/fetch_account_data.py:172 | same length, each character upper-cased |
| Text.UpperIdempotent | src/fetch_account_data.py:172 | upper-casing twice changes nothing more and leaves no lower-case letter |
| Text.NatToStringShape | src/fetch_account_data.py:39 | `str(n)` is a non-empty run of digits without a leading zero |
| Text.IntToStringShape | src/fetch_account_data.py:172-174 | `str(n)` of any integer is digits, with a minus sign for negatives |
| Text.NatToStringValue | src/fetch_account_data.py:41 | the digits of `str(n)` read back as `n` |
| Text.ZeroPad | src/fetch_account_data.py:35 | only digits, padded to the width when shorter |
| Text.ZeroPadValue | src/fetch_account_data.py:30 | a zero-padded number reads back as the number |

## Left out

- HTTP login and page requests (run/src/check_xxljob_config.py:20-59) enter only as their outcomes: logged in or not, and no page, a page without `data`, or a page with jobs. The login and page payloads are not modelled.
- SMS sending (run/src/sms/sms_client.py) is a network call. The jobs record what they would send as an effect. Sending is taken never to raise, so in `AccountJobs.SrcJob` the report is always saved after the message is sent. In the source, `requests.post` (run/src/sms/sms_client.py:26) is not inside a `try`, so a failing POST at src/fetch_account_data.py:191 would end the job before `build_excel` at line 192. `check_xxl_job` (run/src/check_xxljob_config.py:331-339) only sends the two audit messages and is not modelled separately.
- Database access (src/utils/dbutils.py) is left out. Rows are given sequences, and a connection or query exception is `None`.
- The ORDER BY of the calendar query does not matter to the check and is not modelled. The LIKE filter is modelled.
- Logging, the clock (today is a parameter), YAML loading and config-file discovery are left out.
- openpyxl is left out. A worksheet is a map from cells to values, and file paths and `wb.save` are reduced to a success flag.
- `current_month` in `fill_sql` is computed and never used.
- `check_business_parameter` and `check_fee_price` are empty stubs.
- The run copy's `build_excel` has no body.
- Audit and status messages are modelled as line tokens, not as their Chinese text.
- A job whose `scheduleConf` or `executorParam` is missing makes the source raise `AttributeError` on `None`, which nothing catches. In the model both fields are always present strings.
- The calendar model treats `cal_day` as a string. If the driver returned a date object, the slice would raise and the check would answer false.
- A missing `companies` or `sql` entry in the job configuration is not modelled. `JobConfig` always carries both.
- `str.format` format specs, conversions and `{{` escapes are not modelled. A template is literal pieces and named fields.
- The `str(dict)` rendering assumes string keys without quotes or backslashes and integer counts. The real counter names satisfy this.
- src/rules/CompanyEnum.py, imported by the src copy, is not part of this model. The src copy is taken to use the same table as run/src/rules/CompanyEnum.py.
- `strftime("%Y")` is modelled as a four-digit zero-padded year. Some C libraries do not pad years below 1000, which never occur here.
- Upper-casing is ASCII only. Company codes are ASCII.
- CompanyNames.GetName: its contract says a member name gives one of the display values. The value for each member is the `Members` table itself, and `GetNameCaseSensitive` shows a concrete lookup.
- AccountJobs.FetchCompanySrc: connecting and querying are one database call, made after `fill_sql`. The src copy connects (line 53) before it fills (line 56), so when both the connection and the filling would fail, the source raises the connection error and the model reports `SqlFailed`.
- AccountJobs.FetchAll: its own contract gives only the number of results. Order, contents and the failing office are stated by `FetchAllMeaning`.
- SchedulerAudit.LinesFor: its own contract gives only the number of lines and the "not found" case. The remaining contents are in `LinesForShape` and `LinesForContents`.

## Findings

| source | as written | input that shows it | evidently intended | confidence | as-written member | corrected member |
|---|---|---|---|---|---|---|
| src/fetch_account_data.py:62-69 | counters 2 and 4 are read when `len(users) > 0`, counters 3, 5, 6 and 7 when `len(users) > 1` | a query returning one row raises `IndexError` at `users[2]`; two to seven rows raise at the first absent row | read counter `i` when `len(users) > i`, else -1 | high, not executed | AccountJobs.PartialAnswerSrc | Metrics.BindIntended |
| run/src/fetch_account_data.py:57-60 | counter 2 is read when `len(users) > 0` and counter 3 when `len(users) > 1` | a query returning one, two or three rows raises `IndexError` at position 2 or 3 | read counter `i` when `len(users) > i`, else -1 | high, not executed | AccountJobs.PartialAnswerRun | Metrics.BindIntended |
| src/fetch_account_data.py:129 | the report header looks up the raw company code | company `ds_sjs` heads its column as `ds_sjs`, while the SMS line (line 172 upper-cases) shows 石景山 | look up the upper-cased code, as the SMS does | medium, not executed | ExcelReport.HeaderNameDiscrepancy | AccountJobs.ReportNamesMatchSms |
| src/fetch_account_data.py:117-121 | when the template file is missing, row names are written from row 3 and then again from row 2 | with no template, row 3 (counter 0) is labelled with row name 1, and the category label in row 2 is overwritten | each row name beside the row its counter is written to (`3 + index`, line 146) | low, not executed: line 119's comment calls the second pass intentional, but line 143 and the row-2 column headers place counter `k` at row `3 + k` | ExcelReport.SynthesizedAsWrittenMislabels | ExcelReport.SynthesizedIntendedLabels |
