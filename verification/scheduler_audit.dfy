/** The XXL-Job configuration audit (run/src/check_xxljob_config.py): a fixed table
    of expected jobs is compared, entry by entry, with the job list fetched from
    the scheduler, and the verdict is accumulated as a message of lines. The HTTP
    login and page requests enter as their outcomes. */
module SchedulerAudit {
  import opened Wrappers
  import Text
  import Collections

  /** One entry of a hard-coded expectation table. */
  datatype ExpectedJob = ExpectedJob(jobId: int, desc: string, cron: string, param: string, companies: seq<string>)

  /** One element of the `data` array of the scheduler's page list. */
  datatype ActualJob = ActualJob(id: int, scheduleConf: string, executorParam: string, triggerStatus: int)

  /** What the page-list request produced. */
  datatype PageResponse =
    | NoPage                       // request failed, body was not JSON, or it was an empty object
    | WithoutData                  // a JSON object with no `data` key
    | Page(data: seq<ActualJob>)

  /** The two audit categories: large-meter billing and household-meter billing. */
  datatype Category = LargeMeter | Household

  /** The lines the audit message is made of. */
  datatype Line =
    | Header(category: Category)
    | LoginFailed
    | ListFetchFailed
    | NotFound(desc: string)
    | CronMismatch(desc: string)
    | ParamMismatch(desc: string)
    | StatusNotEnabled(desc: string)
    | AllCorrect(desc: string)
    | AllPassed
    | SomeMismatch

  /** Lines that report on a single expected entry. */
  predicate IsEntryLine(l: Line) {
    l.NotFound? || l.CronMismatch? || l.ParamMismatch? || l.StatusNotEnabled? || l.AllCorrect?
  }

  /** The order in which an entry's lines are appended. */
  function EntryRank(l: Line): nat {
    match l
    case CronMismatch(_) => 0
    case ParamMismatch(_) => 1
    case StatusNotEnabled(_) => 2
    case _ => 3
  }

  /** Blank and newline: the only characters the comparison ignores. */
  const IgnoredChars: set<char> := {' ', '\n'}

  /** `s.replace(" ", "").replace("\n", "")`, two passes as written: no blank and
      no newline is left, and the text does not grow. */
  function Normalize(s: string): (r: string)
    ensures forall i :: 0 <= i < |r| ==> r[i] != ' ' && r[i] != '\n'
    ensures |r| <= |s|
  {
    Text.DeleteTwice(s, {' '}, {'\n'});
    Text.DeleteRemoves(s, {' '} + {'\n'});
    Text.Delete(Text.Delete(s, {' '}), {'\n'})
  }

  /** The two passes amount to one pass over blanks and newlines together. */
  lemma NormalizeIsOnePass(s: string)
    ensures Normalize(s) == Text.Delete(s, IgnoredChars)
  {
    Text.DeleteTwice(s, {' '}, {'\n'});
    assert {' '} + {'\n'} == IgnoredChars;
  }

  /** The two passes delete blanks and newlines and nothing else: every other
      character, the tab included, keeps its number of occurrences, and a second
      normalisation changes nothing. */
  lemma NormalizeDeletesOnlyBlanksAndNewlines(s: string, x: char)
    ensures ' ' !in Normalize(s) && '\n' !in Normalize(s)
    ensures x !in IgnoredChars ==> multiset(Normalize(s))[x] == multiset(s)[x]
    ensures ('\t' in Normalize(s)) <==> ('\t' in s)
    ensures Normalize(Normalize(s)) == Normalize(s)
  {
    var n := Normalize(s);
    NormalizeIsOnePass(s);
    NormalizeIsOnePass(n);
    Text.DeleteRemoves(s, IgnoredChars);
    if x !in IgnoredChars {
      Text.DeleteKeepsOthers(s, IgnoredChars, x);
    }
    Text.DeleteKeepsOthers(s, IgnoredChars, '\t');
    assert ('\t' in n) <==> multiset(n)['\t'] > 0;
    assert ('\t' in s) <==> multiset(s)['\t'] > 0;
    Text.DeleteIdempotent(s, IgnoredChars);
  }

  /** Cron and parameter texts match when their normalised forms are equal. */
  predicate SameText(actual: string, expected: string) {
    Normalize(actual) == Normalize(expected)
  }

  /** Inserting blanks or newlines anywhere does not change the normalised text. */
  lemma NormalizeIgnoresInsertedWhitespace(a: string, b: string, w: string)
    requires forall i :: 0 <= i < |w| ==> w[i] in IgnoredChars
    ensures Normalize(a + w + b) == Normalize(a + b)
  {
    NormalizeIsOnePass(a + w + b);
    NormalizeIsOnePass(a + b);
    Text.DeleteAppend(a + w, b, IgnoredChars);
    Text.DeleteAppend(a, w, IgnoredChars);
    Text.DeleteAppend(a, b, IgnoredChars);
    Text.DeleteAll(w, IgnoredChars);
  }

  /** A trailing newline does not make a cron or parameter text differ (so
      `"0 0 7 1-5 * ?\n"` matches `"0 0 7 1-5 * ?"`), while a trailing tab does. */
  lemma TrailingNewlineMatchesTabDoesNot(s: string)
    ensures SameText(s + "\n", s)
    ensures !SameText(s + "\t", s)
  {
    NormalizeIsOnePass(s);
    NormalizeIsOnePass(s + "\n");
    NormalizeIsOnePass(s + "\t");
    Text.DeleteAppend(s, "\n", IgnoredChars);
    Text.DeleteAll("\n", IgnoredChars);
    Text.DeleteAppend(s, "\t", IgnoredChars);
    Text.DeleteNoOp("\t", IgnoredChars);
    assert |Normalize(s + "\t")| == |Normalize(s)| + 1;
  }

  function JobIdOf(job: ActualJob): int {
    job.id
  }

  /** `{job['id']: job for job in page_data['data']}`. */
  function IndexById(jobs: seq<ActualJob>): map<int, ActualJob> {
    Collections.IndexBy(jobs, JobIdOf)
  }

  /** An id is indexed iff some fetched job carries it, and the index keeps the
      last fetched job with that id. */
  lemma IndexByIdLastWins(jobs: seq<ActualJob>, id: int)
    ensures id in IndexById(jobs) <==> exists i :: 0 <= i < |jobs| && jobs[i].id == id
    ensures id in IndexById(jobs) ==>
              exists i :: 0 <= i < |jobs| && jobs[i].id == id && IndexById(jobs)[id] == jobs[i]
                          && forall j :: i < j < |jobs| ==> jobs[j].id != id
  {
    assert forall i :: 0 <= i < |jobs| ==> JobIdOf(jobs[i]) in IndexById(jobs);
    if id in IndexById(jobs) {
      Collections.IndexByLastWins(jobs, JobIdOf, id);
    }
  }

  /** An entry passes when its job is listed with matching cron and parameter
      texts and a trigger status of exactly 1. */
  predicate EntryPasses(e: ExpectedJob, index: map<int, ActualJob>) {
    && e.jobId in index
    && SameText(index[e.jobId].scheduleConf, e.cron)
    && SameText(index[e.jobId].executorParam, e.param)
    && index[e.jobId].triggerStatus == 1
  }

  /** The lines for one entry, given the outcome of its lookup and checks. */
  function LinesFor(desc: string, found: bool, cronOk: bool, paramOk: bool, statusOk: bool): (lines: seq<Line>)
    ensures 1 <= |lines| <= 3
    ensures !found <==> lines == [NotFound(desc)]
  {
    if !found then [NotFound(desc)]
    else
      var lines := (if cronOk then [] else [CronMismatch(desc)])
        + (if paramOk then [] else [ParamMismatch(desc)])
        + (if statusOk then [] else [StatusNotEnabled(desc)])
        + (if cronOk && paramOk && statusOk then [AllCorrect(desc)] else []);
      assert !lines[0].NotFound?;
      lines
  }

  /** Every line an entry gets reports on that entry, and the lines come in the
      order the checks run: cron, parameter, status, then the success line. */
  lemma LinesForShape(desc: string, found: bool, cronOk: bool, paramOk: bool, statusOk: bool)
    ensures var lines := LinesFor(desc, found, cronOk, paramOk, statusOk);
            && (forall i :: 0 <= i < |lines| ==> IsEntryLine(lines[i]) && lines[i].desc == desc)
            && (forall i, j :: 0 <= i < j < |lines| ==> EntryRank(lines[i]) < EntryRank(lines[j]))
  {
    if found {
      var lines := LinesFor(desc, found, cronOk, paramOk, statusOk);
      var cron: seq<Line> := if cronOk then [] else [CronMismatch(desc)];
      var param: seq<Line> := if paramOk then [] else [ParamMismatch(desc)];
      var status: seq<Line> := if statusOk then [] else [StatusNotEnabled(desc)];
      var verdict: seq<Line> := if cronOk && paramOk && statusOk then [AllCorrect(desc)] else [];
      assert lines == cron + param + status + verdict;
    }
  }

  /** Which lines an entry gets: "not found" alone when its id is missing; one
      failure line per failed check; the success line, alone, iff no check failed. */
  lemma LinesForContents(desc: string, found: bool, cronOk: bool, paramOk: bool, statusOk: bool)
    ensures var lines := LinesFor(desc, found, cronOk, paramOk, statusOk);
            && (NotFound(desc) in lines <==> !found)
            && (AllCorrect(desc) in lines <==> found && cronOk && paramOk && statusOk)
            && (found && cronOk && paramOk && statusOk <==> lines == [AllCorrect(desc)])
            && (CronMismatch(desc) in lines <==> found && !cronOk)
            && (ParamMismatch(desc) in lines <==> found && !paramOk)
            && (StatusNotEnabled(desc) in lines <==> found && !statusOk)
  {
    if found {
      var lines := LinesFor(desc, found, cronOk, paramOk, statusOk);
      if cronOk && paramOk && statusOk {
        assert lines == [AllCorrect(desc)];
      } else if cronOk && paramOk {
        assert lines == [StatusNotEnabled(desc)];
      } else if cronOk && statusOk {
        assert lines == [ParamMismatch(desc)];
      } else if paramOk && statusOk {
        assert lines == [CronMismatch(desc)];
      } else if cronOk {
        assert lines == [ParamMismatch(desc), StatusNotEnabled(desc)];
      } else if paramOk {
        assert lines == [CronMismatch(desc), StatusNotEnabled(desc)];
      } else if statusOk {
        assert lines == [CronMismatch(desc), ParamMismatch(desc)];
      } else {
        assert lines == [CronMismatch(desc), ParamMismatch(desc), StatusNotEnabled(desc)];
      }
    }
  }

  /** The lines one iteration of the audit loop appends for one entry. */
  function EntryLines(e: ExpectedJob, index: map<int, ActualJob>): seq<Line>
  {
    var found := e.jobId in index;
    LinesFor(e.desc, found,
      found && SameText(index[e.jobId].scheduleConf, e.cron),
      found && SameText(index[e.jobId].executorParam, e.param),
      found && index[e.jobId].triggerStatus == 1)
  }

  /** Every line of an entry names that entry. */
  lemma EntryLinesShape(e: ExpectedJob, index: map<int, ActualJob>)
    ensures forall l :: l in EntryLines(e, index) ==> IsEntryLine(l) && l.desc == e.desc
  {
    var found := e.jobId in index;
    LinesForShape(e.desc, found,
      found && SameText(index[e.jobId].scheduleConf, e.cron),
      found && SameText(index[e.jobId].executorParam, e.param),
      found && index[e.jobId].triggerStatus == 1);
  }

  /** The lines for all entries of a table, in table order. */
  function EntriesLines(table: seq<ExpectedJob>, index: map<int, ActualJob>): seq<Line>
    decreases |table|
  {
    if |table| == 0 then [] else EntriesLines(table[..|table| - 1], index) + EntryLines(table[|table| - 1], index)
  }

  /** The entries' lines, one list per entry. */
  function LinesPerEntry(table: seq<ExpectedJob>, index: map<int, ActualJob>): (parts: seq<seq<Line>>)
    ensures |parts| == |table|
    ensures forall i :: 0 <= i < |table| ==> parts[i] == EntryLines(table[i], index)
  {
    seq(|table|, i requires 0 <= i < |table| => EntryLines(table[i], index))
  }

  lemma {:induction false} EntriesLinesFlatten(table: seq<ExpectedJob>, index: map<int, ActualJob>)
    ensures EntriesLines(table, index) == Collections.Flatten(LinesPerEntry(table, index))
    decreases |table|
  {
    if |table| > 0 {
      var n := |table| - 1;
      EntriesLinesFlatten(table[..n], index);
      assert LinesPerEntry(table, index)[..n] == LinesPerEntry(table[..n], index);
    }
  }

  /** A line occurs among the entries' lines iff some entry produced it: no entry
      is skipped, whatever happened to the entries before it. */
  lemma EntriesLinesMembership(table: seq<ExpectedJob>, index: map<int, ActualJob>, l: Line)
    ensures l in EntriesLines(table, index) <==> exists i :: 0 <= i < |table| && l in EntryLines(table[i], index)
  {
    var parts := LinesPerEntry(table, index);
    EntriesLinesFlatten(table, index);
    Collections.FlattenMembership(parts, l);
  }

  predicate AllEntriesPass(table: seq<ExpectedJob>, index: map<int, ActualJob>) {
    forall i :: 0 <= i < |table| ==> EntryPasses(table[i], index)
  }

  /** The audit of one category, as the reference definition: a header, then
      either the early-exit notice or every entry's lines followed by one verdict. */
  function AuditMessage(category: Category, table: seq<ExpectedJob>, loggedIn: bool, page: PageResponse): seq<Line>
  {
    if !loggedIn then [Header(category), LoginFailed]
    else if !page.Page? then [Header(category), ListFetchFailed]
    else
      var index := IndexById(page.data);
      [Header(category)] + EntriesLines(table, index)
      + [if AllEntriesPass(table, index) then AllPassed else SomeMismatch]
  }

  /** One iteration of the audit loop: look the entry up, run the three
      independent checks, and report the lines and whether the entry passed. */
  method CheckEntry(item: ExpectedJob, index: map<int, ActualJob>) returns (lines: seq<Line>, passed: bool)
    ensures lines == EntryLines(item, index)
    ensures passed <==> EntryPasses(item, index)
  {
    if item.jobId !in index {
      return [NotFound(item.desc)], false;
    }
    var target := index[item.jobId];
    lines := [];
    passed := true;
    if Normalize(target.scheduleConf) != Normalize(item.cron) {
      lines := lines + [CronMismatch(item.desc)];
      passed := false;
    }
    if Normalize(target.executorParam) != Normalize(item.param) {
      lines := lines + [ParamMismatch(item.desc)];
      passed := false;
    }
    if target.triggerStatus != 1 {
      lines := lines + [StatusNotEnabled(item.desc)];
      passed := false;
    }
    if passed {
      lines := lines + [AllCorrect(item.desc)];
    }
  }

  /** The validation loop of `check_job_configs_dlb` / `check_job_configs_hb`:
      every entry is checked in table order, `overall_success` falling to false
      at the first entry that does not pass. */
  method CheckEntries(table: seq<ExpectedJob>, index: map<int, ActualJob>) returns (lines: seq<Line>, overallSuccess: bool)
    ensures lines == EntriesLines(table, index)
    ensures overallSuccess <==> AllEntriesPass(table, index)
  {
    lines := [];
    overallSuccess := true;
    for k := 0 to |table|
      invariant lines == EntriesLines(table[..k], index)
      invariant overallSuccess <==> AllEntriesPass(table[..k], index)
    {
      EntriesStep(table, index, k);
      var entryLines, passed := CheckEntry(table[k], index);
      lines := lines + entryLines;
      overallSuccess := overallSuccess && passed;
    }
    assert table[..|table|] == table;
  }

  /** One more entry adds its lines at the end and its outcome to the verdict. */
  lemma EntriesStep(table: seq<ExpectedJob>, index: map<int, ActualJob>, k: int)
    requires 0 <= k < |table|
    ensures EntriesLines(table[..k + 1], index) == EntriesLines(table[..k], index) + EntryLines(table[k], index)
    ensures AllEntriesPass(table[..k + 1], index) <==> AllEntriesPass(table[..k], index) && EntryPasses(table[k], index)
  {
    var longer := table[..k + 1];
    assert longer[..k] == table[..k];
    assert longer[k] == table[k];
    assert AllEntriesPass(longer, index) <==> AllEntriesPass(longer[..k], index) && EntryPasses(longer[k], index) by {
      PassesPrefix(longer, index);
    }
  }

  lemma PassesPrefix(table: seq<ExpectedJob>, index: map<int, ActualJob>)
    requires |table| > 0
    ensures AllEntriesPass(table, index) <==>
            AllEntriesPass(table[..|table| - 1], index) && EntryPasses(table[|table| - 1], index)
  {
    var n := |table| - 1;
    assert forall i :: 0 <= i < n ==> table[..n][i] == table[i];
  }

  /** `check_job_configs_dlb` / `check_job_configs_hb`: header, early exits on a
      failed login or list fetch, the validation loop, and the closing verdict. */
  method CheckJobConfigs(category: Category, table: seq<ExpectedJob>, loggedIn: bool, page: PageResponse)
    returns (message: seq<Line>)
    ensures message == AuditMessage(category, table, loggedIn, page)
  {
    message := [Header(category)];
    if !loggedIn {
      message := message + [LoginFailed];
      return;
    }
    if !page.Page? {
      message := message + [ListFetchFailed];
      return;
    }
    var index := IndexById(page.data);
    var lines, overallSuccess := CheckEntries(table, index);
    message := message + lines;
    if overallSuccess {
      message := message + [AllPassed];
    } else {
      message := message + [SomeMismatch];
    }
  }

  /** Login failure gives the header and the login notice only; a missing page or
      one without `data` gives the header and the list notice only. */
  lemma EarlyExits(category: Category, table: seq<ExpectedJob>, loggedIn: bool, page: PageResponse)
    ensures !loggedIn ==> AuditMessage(category, table, loggedIn, page) == [Header(category), LoginFailed]
    ensures loggedIn && (page.NoPage? || page.WithoutData?) ==>
              AuditMessage(category, table, loggedIn, page) == [Header(category), ListFetchFailed]
  {
  }

  /** When the list was fetched, the message opens with the header, closes with
      exactly one verdict — the pass text iff every entry was found and passed —
      and no other line is a header or a verdict. */
  lemma VerdictComesLastAndOnce(category: Category, table: seq<ExpectedJob>, data: seq<ActualJob>)
    ensures var msg := AuditMessage(category, table, true, Page(data));
            && msg[0] == Header(category)
            && (msg[|msg| - 1] == AllPassed <==> AllEntriesPass(table, IndexById(data)))
            && (msg[|msg| - 1] == SomeMismatch <==> !AllEntriesPass(table, IndexById(data)))
            && forall k :: 0 < k < |msg| - 1 ==> IsEntryLine(msg[k])
  {
    var index := IndexById(data);
    var body := EntriesLines(table, index);
    var msg := AuditMessage(category, table, true, Page(data));
    forall k | 0 < k < |msg| - 1 ensures IsEntryLine(msg[k]) {
      assert msg[k] == body[k - 1];
      EntriesLinesMembership(table, index, body[k - 1]);
      var i :| 0 <= i < |table| && body[k - 1] in EntryLines(table[i], index);
      EntryLinesShape(table[i], index);
    }
  }

  /** A "not found" line names exactly the entries whose id is absent from the
      fetched list, each of which makes the verdict a mismatch; the lines of every
      entry appear, so an absent id does not stop later entries being checked. */
  lemma NotFoundLines(category: Category, table: seq<ExpectedJob>, data: seq<ActualJob>, d: string)
    ensures var msg := AuditMessage(category, table, true, Page(data));
            && (NotFound(d) in msg <==> exists i :: 0 <= i < |table| && table[i].desc == d && table[i].jobId !in IndexById(data))
            && ((exists i :: 0 <= i < |table| && table[i].jobId !in IndexById(data)) ==> msg[|msg| - 1] == SomeMismatch)
            && forall i, l :: 0 <= i < |table| && l in EntryLines(table[i], IndexById(data)) ==> l in msg
  {
    var index := IndexById(data);
    var msg := AuditMessage(category, table, true, Page(data));
    var body := EntriesLines(table, index);
    var last := if AllEntriesPass(table, index) then AllPassed else SomeMismatch;
    assert msg == [Header(category)] + body + [last];
    assert NotFound(d) in msg <==> NotFound(d) in body;
    NotFoundInEntries(table, index, d);
    forall i, l | 0 <= i < |table| && l in EntryLines(table[i], index) ensures l in msg {
      EntriesLinesMembership(table, index, l);
      assert l in body;
    }
  }

  /** An entry gets a "not found" line naming `d` iff it is described by `d`
      and its id is missing. */
  lemma NotFoundInEntry(e: ExpectedJob, index: map<int, ActualJob>, d: string)
    ensures NotFound(d) in EntryLines(e, index) <==> e.desc == d && e.jobId !in index
  {
    var found := e.jobId in index;
    LinesForContents(e.desc, found,
      found && SameText(index[e.jobId].scheduleConf, e.cron),
      found && SameText(index[e.jobId].executorParam, e.param),
      found && index[e.jobId].triggerStatus == 1);
    EntryLinesShape(e, index);
  }

  lemma NotFoundInEntries(table: seq<ExpectedJob>, index: map<int, ActualJob>, d: string)
    ensures NotFound(d) in EntriesLines(table, index) <==>
            exists i :: 0 <= i < |table| && table[i].desc == d && table[i].jobId !in index
  {
    EntriesLinesMembership(table, index, NotFound(d));
    forall i | 0 <= i < |table|
      ensures NotFound(d) in EntryLines(table[i], index) <==> table[i].desc == d && table[i].jobId !in index
    {
      NotFoundInEntry(table[i], index, d);
    }
  }


  /** When no other entry shares its description, the lines naming an entry are
      exactly the lines that entry produced. */
  lemma OwnLines(table: seq<ExpectedJob>, index: map<int, ActualJob>, i: int, l: Line)
    requires 0 <= i < |table|
    requires forall j :: 0 <= j < |table| && j != i ==> table[j].desc != table[i].desc
    requires IsEntryLine(l) && l.desc == table[i].desc
    ensures l in EntriesLines(table, index) <==> l in EntryLines(table[i], index)
  {
    EntriesLinesMembership(table, index, l);
    if l in EntriesLines(table, index) {
      var j :| 0 <= j < |table| && l in EntryLines(table[j], index);
      EntryLinesShape(table[j], index);

    }
  }

  /** An entry line is in the message iff it is among the entries' lines. */
  lemma EntryLineInMessage(category: Category, table: seq<ExpectedJob>, data: seq<ActualJob>, l: Line)
    requires IsEntryLine(l)
    ensures l in AuditMessage(category, table, true, Page(data)) <==> l in EntriesLines(table, IndexById(data))
  {
    var index := IndexById(data);
    var body := EntriesLines(table, index);
    var last := if AllEntriesPass(table, index) then AllPassed else SomeMismatch;
    assert AuditMessage(category, table, true, Page(data)) == [Header(category)] + body + [last];
  }

  /** A found entry gets a success line iff none of its three checks failed, and
      the failure lines it gets are exactly those of the failed checks. */
  lemma FoundEntryLines(category: Category, table: seq<ExpectedJob>, data: seq<ActualJob>, i: int)
    requires 0 <= i < |table|
    requires forall j :: 0 <= j < |table| && j != i ==> table[j].desc != table[i].desc
    ensures var msg := AuditMessage(category, table, true, Page(data));
            var e := table[i];
            var index := IndexById(data);
            && (AllCorrect(e.desc) in msg <==> EntryPasses(e, index))
            && (CronMismatch(e.desc) in msg <==> e.jobId in index && !SameText(index[e.jobId].scheduleConf, e.cron))
            && (ParamMismatch(e.desc) in msg <==> e.jobId in index && !SameText(index[e.jobId].executorParam, e.param))
            && (StatusNotEnabled(e.desc) in msg <==> e.jobId in index && index[e.jobId].triggerStatus != 1)
  {
    var index := IndexById(data);
    var e := table[i];
    EntryLineInMessage(category, table, data, AllCorrect(e.desc));
    EntryLineInMessage(category, table, data, CronMismatch(e.desc));
    EntryLineInMessage(category, table, data, ParamMismatch(e.desc));
    EntryLineInMessage(category, table, data, StatusNotEnabled(e.desc));
    var found := e.jobId in index;
    LinesForContents(e.desc, found,
      found && SameText(index[e.jobId].scheduleConf, e.cron),
      found && SameText(index[e.jobId].executorParam, e.param),
      found && index[e.jobId].triggerStatus == 1);
    OwnLines(table, index, i, AllCorrect(e.desc));
    OwnLines(table, index, i, CronMismatch(e.desc));
    OwnLines(table, index, i, ParamMismatch(e.desc));
    OwnLines(table, index, i, StatusNotEnabled(e.desc));
  }

  /** No two entries of a table share a job id. */
  predicate DistinctIds(table: seq<ExpectedJob>) {
    forall i, j :: 0 <= i < j < |table| ==> table[i].jobId != table[j].jobId
  }

  /** No description is listed twice, so each entry's audit lines are its own. */
  predicate DistinctDescs(table: seq<ExpectedJob>) {
    forall i, j :: 0 <= i < j < |table| ==> table[i].desc != table[j].desc
  }

  /** The large-meter billing expectation table of `check_job_configs_dlb`. */
  const LargeMeterJobs: seq<ExpectedJob> :=
    [
      ExpectedJob(1079, "清北大路表远传表出账", "0 0 7 1-5 * ?",
        "{\"2\":[\"02150201\",\"02150205\"]}", ["ds_qb"]),
      ExpectedJob(1078, "怀柔、檀州大路表远传表出账", "0 0 7 1 * ?",
        "{0:[\"02180201\",\"02170201\"]}", ["ds_hr", "ds_jy"]),
      ExpectedJob(1074, "通州大路表远传表出账", "0 0 7 * * ?",
        "{\"1\":[\"02130201\"]}", ["ds_tz"]),
      ExpectedJob(1073, "良泉大路表远传表出账", "0 0 7 1-16 * ?",
        "{\"2\":[\"02110201\",\"02110202\",\"02110203\",\"02110204\",\"02110205\",\"02110207\",\"02110208\",\"02110209\"]}", ["ds_lq"]),
      ExpectedJob(1071, "门头沟、缙阳大路表远传表出账", "0 0 7 * * ?",
        "{\"0\":[\"02160201\"],\"1\":[\"02190202\",\"02190201\"]}", ["ds_mtg", "ds_jy"]),
      ExpectedJob(1070, "大兴大路表远传表出账", "0 0 7 1-8 * ?",
        "{\"1\":[\"02120201\"],\"2\":[\"02120202\"]}", ["ds_dx"]),
      ExpectedJob(1069, "石景山大路表远传表出账", "0 0 7 1-3 * ?",
        "{\"0\":[\"02200201\"],\"1\":[\"02200207\"],\"2\":[\"02200208\"]}", ["ds_sjs"])
    ]

  /** The household-meter billing expectation table of `check_job_configs_hb`;
      its entries carry no company tags. */
  const HouseholdJobs: seq<ExpectedJob> :=
    [
      ExpectedJob(1023, "户表远传表出账(非良泉\\石景山)", "0 0 6 3-6 * ?",
        "{\"0\":[\"02160201\",\"02130201\",\"02150201\",\"02150205\"],\"1\":[\"02120201\",\"02190202\",\"02190201\"],\"2\":[\"02120202\",\"02180201\",\"02170201\"]}", []),
      ExpectedJob(1084, "户表远传表出账(石景山)", "0 0 6 10-13 * ?",
        "{\"0\":[\"02200208\"],\"1\":[\"02200207\"],\"2\":[\"02200201\"]}", []),
      ExpectedJob(1072, "户表远传表出账(良泉)", "0 0 6 2-6 * ?",
        "{\"0\":[\"02110201\",\"02110202\",\"02110203\"],\"1\":[\"02110204\",\"02110205\"],\"2\":[\"02110207\",\"02110208\",\"02110209\"]}", [])
    ]

  /** The large-meter table lists seven entries and the household table three;
      neither repeats a job id, so the id index of the fetched list decides each
      entry independently, nor a description, so the lines an entry contributes
      to the message are told apart by their description. */
  lemma LargeMeterIdsDistinct()
    ensures |LargeMeterJobs| == 7 && DistinctIds(LargeMeterJobs)
    ensures DistinctDescs(LargeMeterJobs)
  {
    LargeMeterIdsOnly();
    LargeMeterDescsOnly();
  }

  lemma LargeMeterIdsOnly()
    ensures |LargeMeterJobs| == 7 && DistinctIds(LargeMeterJobs)
  {
  }

  lemma LargeMeterDescsOnly()
    ensures DistinctDescs(LargeMeterJobs)
  {
  }

  lemma HouseholdIdsDistinct()
    ensures |HouseholdJobs| == 3 && DistinctIds(HouseholdJobs)
    ensures DistinctDescs(HouseholdJobs)
  {
  }

  /** `check_job_configs_dlb`. */
  method CheckLargeMeterJobs(loggedIn: bool, page: PageResponse) returns (message: seq<Line>)
    ensures message == AuditMessage(LargeMeter, LargeMeterJobs, loggedIn, page)
    ensures message[0] == Header(LargeMeter)
  {
    message := CheckJobConfigs(LargeMeter, LargeMeterJobs, loggedIn, page);
  }

  /** `check_job_configs_hb`. */
  method CheckHouseholdJobs(loggedIn: bool, page: PageResponse) returns (message: seq<Line>)
    ensures message == AuditMessage(Household, HouseholdJobs, loggedIn, page)
    ensures message[0] == Header(Household)
  {
    message := CheckJobConfigs(Household, HouseholdJobs, loggedIn, page);
  }
}
