/** The accounting rows of `sacct` (and of `squeue`, which prints the same columns): twenty fields
    separated by bars, one job or job step a line, folded into a dictionary of jobs. */
module SlurmRows {
  import opened Prelude
  import opened Text
  import opened SlurmTime

  datatype ExitCode = ExitCode(returnCode: string, signal: string)

  datatype Times = Times(elapsed: Option<int>, submission: Option<int>, start: Option<int>, end: Option<int>,
                         suspended: Option<int>, limit: Option<int>)

  datatype Step = Step(id: string, name: string, state: string, exitCode: Option<ExitCode>, time: Times)

  datatype Job = Job(row: JobFields, steps: seq<Step>)

  datatype JobFields = JobFields(
    jobId: string, allocationNodes: string, cluster: string, exitCode: Option<ExitCode>, group: string,
    account: string, name: string, nodes: string, partition: string, priority: Option<int>, state: string,
    reason: string, time: Times, user: string, workingDirectory: string)

  datatype Error = BadValue | BadStepId | UnknownJob | CommandFailed

  const WIDTH: nat := 20

  // ---------------------------------------------------------------- one row

  /** The outer None is the case in which the expression raises. */
  function ParseExitCode(s: string): Option<Option<ExitCode>> {
    if s == "" then Some(None)
    else
      var f := Split(s, ':');
      if |f| >= 2 then Some(Some(ExitCode(f[0], f[1]))) else None
  }

  /** `int(s) if s else None`, raising when `s` is no integer. */
  function OptionalInt(s: string): Option<Option<int>> {
    if s == "" then Some(None) else if PyInt(s).Some? then Some(PyInt(s)) else None
  }

  function ParseTimestamp(s: string): Option<int> { if s == "Unknown" then None else PyInt(s) }

  function OptionalDuration(s: string, minutes: bool): Option<int> {
    if s == "" then None else TimestrToSeconds(s, minutes)
  }

  function ParseJob(row: seq<string>): (r: Option<JobFields>)
    requires |row| == WIDTH
    ensures r.Some? ==> r.value.jobId == row[0]
  {
    match (ParseExitCode(row[3]), OptionalInt(row[9]))
    case (Some(exitCode), Some(priority)) =>
      var time := Times(OptionalDuration(row[12], false), ParseTimestamp(row[13]), ParseTimestamp(row[14]),
                        ParseTimestamp(row[15]), TimestrToSeconds(row[16], false), OptionalDuration(row[17], true));
      Some(JobFields(row[0], row[1], row[2], exitCode, row[4], row[5], row[6], row[7], row[8], priority, row[10],
                     row[11], time, row[18], row[19]))
    case _ => None
  }

  function ParseStep(row: seq<string>): Option<Step>
    requires |row| == WIDTH
  {
    match (ParseExitCode(row[3]), OptionalInt(row[12]), OptionalInt(row[17]))
    case (Some(exitCode), Some(elapsed), Some(limit)) =>
      var time := Times(elapsed, ParseTimestamp(row[13]), ParseTimestamp(row[14]), ParseTimestamp(row[15]),
                        TimestrToSeconds(row[16], false), limit);
      Some(Step(row[0], row[6], row[10], exitCode, time))
    case _ => None
  }

  // ---------------------------------------------------------------- the fold

  /** The dictionary: its keys in insertion order and the job under each. */
  datatype Table = Table(keys: seq<string>, jobs: map<string, Job>)

  function PutJob(t: Table, id: string, fields: JobFields): Table {
    Table(if id in t.jobs then t.keys else t.keys + [id], t.jobs[id := Job(fields, [])])
  }

  function AddStep(t: Table, id: string, step: Step): Table
    requires id in t.jobs
  {
    t.(jobs := t.jobs[id := t.jobs[id].(steps := t.jobs[id].steps + [step])])
  }

  function ReadRow(t: Table, row: seq<string>): Result<Table, Error> {
    if |row| != WIDTH then Ok(t)
    else if '.' in row[0] then
      var ids := Split(row[0], '.');
      if |ids| != 2 then Err(BadStepId)
      else if ids[0] !in t.jobs then Err(UnknownJob)
      else if ParseStep(row).None? then Err(BadValue)
      else Ok(AddStep(t, ids[0], ParseStep(row).value))
    else if ParseJob(row).None? then Err(BadValue)
    else Ok(PutJob(t, row[0], ParseJob(row).value))
  }

  function ReadLines(lines: seq<string>): Result<Table, Error> {
    if lines == [] then Ok(Table([], map[]))
    else
      var n := |lines| - 1;
      match ReadLines(lines[..n])
      case Err(e) => Err(e)
      case Ok(t) => ReadRow(t, Split(lines[n], '|'))
  }

  /** `parse_output`, with the dictionary updated line by line. */
  method ParseOutput(stdout: string, invalidJobId: bool, exitStatus: int) returns (r: Result<Option<Table>, Error>)
    ensures exitStatus == 1 && invalidJobId ==> r == Ok(None)
    ensures exitStatus != 0 && !(exitStatus == 1 && invalidJobId) ==> r == Err(CommandFailed)
    ensures exitStatus == 0 ==>
      var t := ReadLines(Split(stdout, '\n'));
      r == if t.Err? then Err(t.error) else if t.value.jobs == map[] then Ok(None) else Ok(Some(t.value))
  {
    if exitStatus == 1 && invalidJobId {
      return Ok(None);
    }
    if exitStatus != 0 {
      return Err(CommandFailed);
    }
    var keys: seq<string>, jobs: map<string, Job> := [], map[];
    var lines := Split(stdout, '\n');
    for i := 0 to |lines|
      invariant ReadLines(lines[..i]) == Ok(Table(keys, jobs))
    {
      assert lines[..i + 1][..i] == lines[..i];
      var info := Split(lines[i], '|');
      if |info| != WIDTH {
        continue;
      }
      var id := info[0];
      if '.' in id {
        var ids := Split(id, '.');
        if |ids| != 2 {
          ErrorsStay(lines, i + 1);
          return Err(BadStepId);
        }
        if ids[0] !in jobs {
          ErrorsStay(lines, i + 1);
          return Err(UnknownJob);
        }
        var step := ParseStep(info);
        if step.None? {
          ErrorsStay(lines, i + 1);
          return Err(BadValue);
        }
        jobs := jobs[ids[0] := jobs[ids[0]].(steps := jobs[ids[0]].steps + [step.value])];
      } else {
        var job := ParseJob(info);
        if job.None? {
          ErrorsStay(lines, i + 1);
          return Err(BadValue);
        }
        if id !in jobs {
          keys := keys + [id];
        }
        jobs := jobs[id := Job(job.value, [])];
      }
    }
    assert lines[..|lines|] == lines;
    return Ok(if jobs == map[] then None else Some(Table(keys, jobs)));
  }

  lemma {:induction false} ErrorsStay(lines: seq<string>, n: nat)
    requires n <= |lines| && ReadLines(lines[..n]).Err?
    ensures ReadLines(lines) == ReadLines(lines[..n])
    decreases |lines| - n
  {
    if n < |lines| {
      assert lines[..n + 1][..n] == lines[..n];
      ErrorsStay(lines, n + 1);
    } else {
      assert lines[..n] == lines;
    }
  }

  // ---------------------------------------------------------------- printing a row

  /** No bar and no newline. */
  predicate IsCleanText(s: string) { '|' !in s && '\n' !in s }

  predicate IsClean(row: seq<string>) { |row| == WIDTH && forall i | 0 <= i < WIDTH :: IsCleanText(row[i]) }

  function PrintInt(n: int): string { if n < 0 then ['-'] + Decimal(-n) else Decimal(n) }

  function PrintOptional(n: Option<int>): string { if n.None? then "" else PrintInt(n.value) }

  function PrintExit(e: Option<ExitCode>): string {
    if e.None? then "" else e.value.returnCode + [':'] + e.value.signal
  }

  function PrintStamp(n: Option<int>): string { if n.None? then "Unknown" else PrintInt(n.value) }

  function PrintDuration(n: Option<int>, form: Form): string
    requires n.Some? ==> n.value >= 0
  {
    if n.None? then "" else SlurmTime.Print(n.value, form)
  }

  /** A bare number in the column for the limit is minutes. */
  function PrintLimit(n: Option<int>, form: Form): string
    requires n.Some? ==> n.value >= 0
  {
    if n.Some? && form.Raw? then SlurmTime.Print(n.value / 60, Raw) else PrintDuration(n, form)
  }

  /** How the three durations of a job are written. */
  datatype Forms = Forms(elapsed: Form, suspended: Form, limit: Form)

  predicate IsDuration(n: Option<int>) { n.Some? ==> n.value >= 0 }

  predicate IsPrintableExit(e: Option<ExitCode>) {
    e.Some? ==>
      && IsCleanText(e.value.returnCode) && IsCleanText(e.value.signal)
      && ':' !in e.value.returnCode && ':' !in e.value.signal
  }

  predicate IsPrintableTimes(t: Times, forms: Forms) {
    && IsDuration(t.elapsed) && IsDuration(t.suspended) && IsDuration(t.limit)
    && (t.limit.Some? && forms.limit.Raw? ==> t.limit.value % 60 == 0)
  }

  /** Columns 1 to 12: JobID, AllocNodes, Cluster, ExitCode, Group, Account, JobName, NodeList,
      Partition, Priority, State, Reason. */
  function JobHead(j: JobFields): seq<string> {
    [j.jobId, j.allocationNodes, j.cluster, PrintExit(j.exitCode), j.group, j.account, j.name, j.nodes, j.partition,
     PrintOptional(j.priority), j.state, j.reason]
  }

  /** Columns 13 to 18 of a job: ElapsedRaw, Submit, Start, End, Suspended, TimelimitRaw. */
  function JobTimes(t: Times, forms: Forms): seq<string>
    requires IsPrintableTimes(t, forms)
  {
    [PrintDuration(t.elapsed, forms.elapsed), PrintStamp(t.submission), PrintStamp(t.start), PrintStamp(t.end),
     PrintDuration(t.suspended, forms.suspended), PrintLimit(t.limit, forms.limit)]
  }

  /** The row of a job; columns 19 and 20 are User and WorkDir. */
  function JobRow(j: JobFields, forms: Forms): (row: seq<string>)
    requires IsPrintableTimes(j.time, forms)
    ensures |row| == WIDTH
  {
    JobHead(j) + JobTimes(j.time, forms) + [j.user, j.workingDirectory]
  }

  predicate IsPrintableJob(j: JobFields, forms: Forms) {
    && IsPrintableTimes(j.time, forms) && IsPrintableExit(j.exitCode) && '.' !in j.jobId
    && (forall s <- [j.jobId, j.allocationNodes, j.cluster, j.group, j.account, j.name] :: IsCleanText(s))
    && (forall s <- [j.nodes, j.partition, j.state, j.reason, j.user, j.workingDirectory] :: IsCleanText(s))
  }

  /** Columns 13 to 18 of a step, whose elapsed time and limit are bare integers. */
  function StepTimes(t: Times, suspended: Form): seq<string>
    requires IsDuration(t.suspended)
  {
    [PrintOptional(t.elapsed), PrintStamp(t.submission), PrintStamp(t.start), PrintStamp(t.end),
     PrintDuration(t.suspended, suspended), PrintOptional(t.limit)]
  }

  /** The row of a step; the columns that a step does not report are those of `other`. */
  function StepRow(s: Step, other: seq<string>, suspended: Form): (row: seq<string>)
    requires IsDuration(s.time.suspended) && |other| == WIDTH
    ensures |row| == WIDTH
  {
    [s.id, other[1], other[2], PrintExit(s.exitCode), other[4], other[5], s.name, other[7], other[8], other[9],
     s.state, other[11]] + StepTimes(s.time, suspended) + [other[18], other[19]]
  }

  predicate IsPrintableStep(s: Step, other: seq<string>) {
    && IsDuration(s.time.suspended) && IsPrintableExit(s.exitCode) && IsClean(other)
    && IsCleanText(s.id) && IsCleanText(s.name) && IsCleanText(s.state)
  }

  // ---------------------------------------------------------------- reading a printed row

  lemma NaturalReads(n: nat)
    ensures PyInt(Decimal(n)) == Some(n) && IsCleanText(Decimal(n)) && IsDigit(Decimal(n)[0])
  {
    NatOfDecimal(n);
    PyIntOfDigits(Decimal(n));
  }

  lemma MinusReads(s: string)
    requires IsNumber(s)
    ensures PyInt(['-'] + s) == Some(-(NatOf(s) as int))
  {
    var t := ['-'] + s;
    assert t[1..] == s;
    assert StripRight(StripLeft(t)) == t by { assert t[|t| - 1] == s[|s| - 1]; }
    assert WithoutUnderscores(s) == s by { NoUnderscores(s); }
    assert !IsIntegerBody(t) && IsIntegerBody(s);
  }

  lemma IntReads(n: int)
    ensures PyInt(PrintInt(n)) == Some(n) && IsCleanText(PrintInt(n))
    ensures PrintInt(n) != "" && PrintInt(n) != "Unknown"
  {
    var size := if n < 0 then -n else n;
    NaturalReads(size);
    NatOfDecimal(size);
    MinusReads(Decimal(size));
    assert "Unknown"[0] == 'U';
  }

  lemma OptionalReads(n: Option<int>)
    ensures OptionalInt(PrintOptional(n)) == Some(n) && IsCleanText(PrintOptional(n))
  {
    if n.Some? {
      IntReads(n.value);
    }
  }

  lemma StampReads(n: Option<int>)
    ensures ParseTimestamp(PrintStamp(n)) == n && IsCleanText(PrintStamp(n))
  {
    if n.Some? {
      IntReads(n.value);
    }
  }

  lemma ExitReads(e: Option<ExitCode>)
    requires IsPrintableExit(e)
    ensures ParseExitCode(PrintExit(e)) == Some(e) && IsCleanText(PrintExit(e))
  {
    if e.Some? {
      SplitCons(e.value.returnCode, ':', e.value.signal);
      SplitAtom(e.value.signal, ':');
    }
  }

  lemma DurationIsClean(n: nat, form: Form)
    ensures IsCleanText(SlurmTime.Print(n, form)) && SlurmTime.Print(n, form) != ""
  {
  }

  lemma NoDuration(flag: bool)
    ensures TimestrToSeconds("", flag) == None
  {
  }

  lemma DurationReads(n: Option<int>, form: Form)
    requires IsDuration(n)
    ensures OptionalDuration(PrintDuration(n, form), false) == n
    ensures TimestrToSeconds(PrintDuration(n, form), false) == n
    ensures IsCleanText(PrintDuration(n, form))
  {
    NoDuration(false);
    if n.Some? {
      ParsePrint(n.value, form, false);
      DurationIsClean(n.value, form);
    }
  }

  lemma LimitReads(n: Option<int>, form: Form)
    requires IsDuration(n) && (n.Some? && form.Raw? ==> n.value % 60 == 0)
    ensures OptionalDuration(PrintLimit(n, form), true) == n && IsCleanText(PrintLimit(n, form))
  {
    if n.Some? {
      var shown := if form.Raw? then n.value / 60 else n.value;
      ParsePrint(shown, form, true);
      DurationIsClean(shown, form);
    }
  }

  predicate IsCleanPart(cells: seq<string>) { forall i | 0 <= i < |cells| :: IsCleanText(cells[i]) }

  /** The columns Submit to Suspended of a row hold these times. */
  predicate ShowsTimes(cells: seq<string>, t: Times)
    requires |cells| == 6
  {
    && ParseTimestamp(cells[1]) == t.submission && ParseTimestamp(cells[2]) == t.start
    && ParseTimestamp(cells[3]) == t.end && TimestrToSeconds(cells[4], false) == t.suspended
  }

  predicate ShowsJobTimes(cells: seq<string>, t: Times)
    requires |cells| == 6
  {
    && ShowsTimes(cells, t)
    && OptionalDuration(cells[0], false) == t.elapsed && OptionalDuration(cells[5], true) == t.limit
  }

  predicate ShowsStepTimes(cells: seq<string>, t: Times)
    requires |cells| == 6
  {
    ShowsTimes(cells, t) && OptionalInt(cells[0]) == Some(t.elapsed) && OptionalInt(cells[5]) == Some(t.limit)
  }

  lemma TimesRead(t: Times, suspended: Form, cells: seq<string>)
    requires IsDuration(t.suspended) && |cells| == 6
    requires cells[1] == PrintStamp(t.submission) && cells[2] == PrintStamp(t.start)
    requires cells[3] == PrintStamp(t.end) && cells[4] == PrintDuration(t.suspended, suspended)
    ensures IsCleanText(cells[1]) && IsCleanText(cells[2]) && IsCleanText(cells[3]) && IsCleanText(cells[4])
    ensures ShowsTimes(cells, t)
  {
    assert IsCleanText(cells[1]) && ParseTimestamp(cells[1]) == t.submission by { StampReads(t.submission); }
    assert IsCleanText(cells[2]) && ParseTimestamp(cells[2]) == t.start by { StampReads(t.start); }
    assert IsCleanText(cells[3]) && ParseTimestamp(cells[3]) == t.end by { StampReads(t.end); }
    assert IsCleanText(cells[4]) && TimestrToSeconds(cells[4], false) == t.suspended by {
      DurationReads(t.suspended, suspended);
    }
  }

  lemma JobTimesRead(t: Times, forms: Forms)
    requires IsPrintableTimes(t, forms)
    ensures IsCleanPart(JobTimes(t, forms)) && ShowsJobTimes(JobTimes(t, forms), t)
  {
    var cells := JobTimes(t, forms);
    DurationReads(t.elapsed, forms.elapsed);
    TimesRead(t, forms.suspended, cells);
    LimitReads(t.limit, forms.limit);
  }

  lemma StepTimesRead(t: Times, suspended: Form)
    requires IsDuration(t.suspended)
    ensures IsCleanPart(StepTimes(t, suspended)) && ShowsStepTimes(StepTimes(t, suspended), t)
  {
    var cells := StepTimes(t, suspended);
    OptionalReads(t.elapsed);
    TimesRead(t, suspended, cells);
    OptionalReads(t.limit);
  }

  lemma JobOfCells(row: seq<string>, head: seq<string>, cells: seq<string>, j: JobFields)
    requires |cells| == 6 && |head| == 12 && row == head + cells + [j.user, j.workingDirectory] && head == JobHead(j)
    requires ShowsJobTimes(cells, j.time)
    requires ParseExitCode(head[3]) == Some(j.exitCode) && OptionalInt(head[9]) == Some(j.priority)
    ensures |row| == WIDTH && ParseJob(row) == Some(j)
  {
    assert row[12..18] == cells && row[..12] == head;
  }

  lemma StepOfCells(row: seq<string>, cells: seq<string>, s: Step)
    requires |cells| == 6 && |row| == WIDTH && row[12..18] == cells && ShowsStepTimes(cells, s.time)
    requires row[0] == s.id && row[6] == s.name && row[10] == s.state && ParseExitCode(row[3]) == Some(s.exitCode)
    ensures ParseStep(row) == Some(s)
  {
    assert forall i | 0 <= i < 6 :: row[12 + i] == cells[i];
  }

  /** A job printed under the twenty column names is read back field by field. */
  lemma JobReadsBack(j: JobFields, forms: Forms)
    requires IsPrintableJob(j, forms)
    ensures IsClean(JobRow(j, forms)) && ParseJob(JobRow(j, forms)) == Some(j)
  {
    JobTimesRead(j.time, forms);
    ExitReads(j.exitCode);
    OptionalReads(j.priority);
    JobRowIsClean(j, forms);
    JobOfCells(JobRow(j, forms), JobHead(j), JobTimes(j.time, forms), j);
  }

  lemma JobRowIsClean(j: JobFields, forms: Forms)
    requires IsPrintableJob(j, forms) && IsCleanPart(JobTimes(j.time, forms))
    requires IsCleanText(PrintExit(j.exitCode)) && IsCleanText(PrintOptional(j.priority))
    ensures IsClean(JobRow(j, forms))
  {
    assert IsCleanPart(JobHead(j));
  }

  /** A step printed under the twenty column names is read back field by field, whatever the columns
      hold that a step does not report. */
  lemma StepReadsBack(s: Step, other: seq<string>, suspended: Form)
    requires IsPrintableStep(s, other)
    ensures IsClean(StepRow(s, other, suspended)) && ParseStep(StepRow(s, other, suspended)) == Some(s)
  {
    var row, cells := StepRow(s, other, suspended), StepTimes(s.time, suspended);
    StepTimesRead(s.time, suspended);
    ExitReads(s.exitCode);
    assert row[12..18] == cells;
    StepOfCells(row, cells, s);
    StepRowIsClean(s, other, suspended);
  }

  lemma StepRowIsClean(s: Step, other: seq<string>, suspended: Form)
    requires IsPrintableStep(s, other) && IsCleanPart(StepTimes(s.time, suspended))
    requires IsCleanText(PrintExit(s.exitCode))
    ensures IsClean(StepRow(s, other, suspended))
  {
  }

  // ---------------------------------------------------------------- a printed report

  /** One line of a report: a job row, a step row, or a line of any other width. */
  datatype Line =
    | JobLine(row: seq<string>, job: JobFields)
    | StepLine(row: seq<string>, main: string, number: string, step: Step)
    | OtherLine(text: string)

  predicate IsStepId(id: string, main: string, number: string) {
    id == main + ['.'] + number && '.' !in main && '.' !in number
  }

  /** Rows are printed from the fields of their job or step. */
  ghost predicate WellFormed(line: Line) {
    match line
    case JobLine(row, job) => exists forms :: IsPrintableJob(job, forms) && row == JobRow(job, forms)
    case StepLine(row, main, number, step) =>
      && IsStepId(step.id, main, number)
      && exists other, form :: IsPrintableStep(step, other) && row == StepRow(step, other, form)
    case OtherLine(text) => '\n' !in text && |Split(text, '|')| != WIDTH
  }

  /** Rows may hold any text that has the meaning of their job or step, such as padded integers. */
  predicate Readable(line: Line) {
    match line
    case JobLine(row, job) => IsClean(row) && '.' !in row[0] && ParseJob(row) == Some(job)
    case StepLine(row, main, number, step) =>
      IsClean(row) && IsStepId(row[0], main, number) && ParseStep(row) == Some(step)
    case OtherLine(text) => '\n' !in text && |Split(text, '|')| != WIDTH
  }

  lemma PrintedLineIsReadable(line: Line)
    requires WellFormed(line)
    ensures Readable(line)
  {
    match line
    case JobLine(row, job) =>
      var forms :| IsPrintableJob(job, forms) && row == JobRow(job, forms);
      JobReadsBack(job, forms);
    case StepLine(row, _, _, step) =>
      var other, form :| IsPrintableStep(step, other) && row == StepRow(step, other, form);
      StepReadsBack(step, other, form);
    case OtherLine(_) =>
  }

  function Print(line: Line): string { if line.OtherLine? then line.text else Join(line.row, '|') }

  function PrintAll(lines: seq<Line>): seq<string> { seq(|lines|, i requires 0 <= i < |lines| => Print(lines[i])) }

  /** Every line ended by a newline. */
  function Report(lines: seq<Line>): string { Join(PrintAll(lines) + [""], '\n') }

  function Last<T>(s: seq<T>): T
    requires s != []
  {
    s[|s| - 1]
  }

  function Init<T>(s: seq<T>): seq<T>
    requires s != []
  {
    s[..|s| - 1]
  }

  /** The job ids of a report in order of first appearance. */
  function JobIds(lines: seq<Line>): seq<string> {
    if lines == [] then []
    else
      var ids := JobIds(Init(lines));
      if Last(lines).JobLine? && Last(lines).job.jobId !in ids then ids + [Last(lines).job.jobId] else ids
  }

  /** Every step comes after its job. */
  predicate InOrder(lines: seq<Line>) {
    lines == [] || (InOrder(Init(lines)) && (Last(lines).StepLine? ==> Last(lines).main in JobIds(Init(lines))))
  }

  predicate WellOrdered(lines: seq<Line>) { InOrder(lines) && forall i | 0 <= i < |lines| :: Readable(lines[i]) }

  /** The steps that name `id` as their job, in order, since the last row of that job. */
  function StepsOf(lines: seq<Line>, id: string): seq<Step> {
    if lines == [] || (Last(lines).JobLine? && Last(lines).job.jobId == id) then []
    else if Last(lines).StepLine? && Last(lines).main == id then StepsOf(Init(lines), id) + [Last(lines).step]
    else StepsOf(Init(lines), id)
  }

  /** The fields in the last row of the job with this id. */
  function FieldsOf(lines: seq<Line>, id: string): Option<JobFields> {
    if lines == [] then None
    else if Last(lines).JobLine? && Last(lines).job.jobId == id then Some(Last(lines).job)
    else FieldsOf(Init(lines), id)
  }

  lemma RowReadsBack(row: seq<string>)
    requires IsClean(row)
    ensures Split(Join(row, '|'), '|') == row
  {
    SplitJoin(row, '|');
  }

  lemma PrintHasNoNewline(line: Line)
    requires Readable(line)
    ensures '\n' !in Print(line)
  {
    if !line.OtherLine? {
      JoinAvoids(line.row, '|', '\n');
    }
  }

  lemma {:induction false} PrintAllHasNoNewline(lines: seq<Line>)
    requires WellOrdered(lines)
    ensures forall i | 0 <= i < |lines| :: '\n' !in PrintAll(lines)[i]
    decreases |lines|
  {
    if lines != [] {
      PrintAllHasNoNewline(Init(lines));
      PrintHasNoNewline(Last(lines));
      assert forall i | 0 <= i < |lines| - 1 :: PrintAll(lines)[i] == PrintAll(Init(lines))[i];
    }
  }

  lemma ReportLines(lines: seq<Line>)
    requires WellOrdered(lines)
    ensures Split(Report(lines), '\n') == PrintAll(lines) + [""]
  {
    PrintAllHasNoNewline(lines);
    SplitJoin(PrintAll(lines) + [""], '\n');
  }

  /** What the dictionary is after a report: its keys are the job ids in order, and each job has the
      fields of its own last row and exactly the steps that have named it since, in order. */
  ghost predicate Describes(t: Table, lines: seq<Line>) {
    && t.keys == JobIds(lines)
    && (forall id :: id in t.jobs <==> id in t.keys)
    && (forall id <- t.jobs :: Some(t.jobs[id].row) == FieldsOf(lines, id) && t.jobs[id].steps == StepsOf(lines, id))
  }

  lemma ReadsJob(t: Table, line: Line)
    requires line.JobLine? && Readable(line)
    ensures ReadRow(t, Split(Print(line), '|')) == Ok(PutJob(t, line.job.jobId, line.job))
  {
    RowReadsBack(line.row);
  }

  lemma ReadsStep(t: Table, line: Line)
    requires line.StepLine? && Readable(line) && line.main in t.jobs
    ensures ReadRow(t, Split(Print(line), '|')) == Ok(AddStep(t, line.main, line.step))
  {
    RowReadsBack(line.row);
    SplitCons(line.main, '.', line.number);
    SplitAtom(line.number, '.');
    assert line.row[0][|line.main|] == '.';
  }

  lemma JobExtends(t: Table, lines: seq<Line>)
    requires lines != [] && InOrder(lines) && Describes(t, Init(lines)) && Last(lines).JobLine?
    ensures Describes(PutJob(t, Last(lines).job.jobId, Last(lines).job), lines)
  {
    var id := Last(lines).job.jobId;
    var r := PutJob(t, id, Last(lines).job);
    forall k <- r.jobs ensures Some(r.jobs[k].row) == FieldsOf(lines, k) && r.jobs[k].steps == StepsOf(lines, k) {
      assert k != id ==> k in t.jobs;
    }
  }

  lemma StepExtends(t: Table, lines: seq<Line>)
    requires lines != [] && InOrder(lines) && Describes(t, Init(lines)) && Last(lines).StepLine?
    ensures Last(lines).main in t.jobs && Describes(AddStep(t, Last(lines).main, Last(lines).step), lines)
  {
  }

  lemma LineExtends(t: Table, lines: seq<Line>)
    requires lines != [] && WellOrdered(lines) && Describes(t, Init(lines))
    ensures var r := ReadRow(t, Split(Print(Last(lines)), '|')); r.Ok? && Describes(r.value, lines)
  {
    match Last(lines)
    case JobLine(_, _) =>
      ReadsJob(t, Last(lines));
      JobExtends(t, lines);
    case StepLine(_, _, _, _) =>
      StepExtends(t, lines);
      ReadsStep(t, Last(lines));
    case OtherLine(_) =>
  }

  lemma {:induction false} ReadsEveryLine(lines: seq<Line>)
    requires WellOrdered(lines)
    ensures var r := ReadLines(PrintAll(lines)); r.Ok? && Describes(r.value, lines)
    decreases |lines|
  {
    if lines != [] {
      ReadsEveryLine(Init(lines));
      assert PrintAll(lines)[..|lines| - 1] == PrintAll(Init(lines));
      LineExtends(ReadLines(PrintAll(Init(lines))).value, lines);
    }
  }

  /** Parsing a report of readable rows gives back every job once, in order, with exactly its own
      steps in order, whatever lines of other widths are mixed in. A job whose row comes again starts
      afresh. */
  lemma ReadableRoundTrip(lines: seq<Line>)
    requires WellOrdered(lines)
    ensures var r := ReadLines(Split(Report(lines), '\n')); r.Ok? && Describes(r.value, lines)
  {
    ReportLines(lines);
    ReadsEveryLine(lines);
    TrailingLineIsIgnored(PrintAll(lines));
  }

  /** The round trip: the fields printed are the fields read, for every job and every step. */
  lemma ReportRoundTrip(lines: seq<Line>)
    requires InOrder(lines) && forall i | 0 <= i < |lines| :: WellFormed(lines[i])
    ensures var r := ReadLines(Split(Report(lines), '\n')); r.Ok? && Describes(r.value, lines)
  {
    forall i | 0 <= i < |lines| ensures Readable(lines[i]) {
      PrintedLineIsReadable(lines[i]);
    }
    ReadableRoundTrip(lines);
  }

  lemma TrailingLineIsIgnored(lines: seq<string>)
    ensures ReadLines(lines + [""]) == ReadLines(lines)
  {
    assert (lines + [""])[..|lines|] == lines;
    assert Split("", '|') == [""];
  }

  // ---------------------------------------------------------------- conservation

  function CountSteps(lines: seq<Line>): nat {
    if lines == [] then 0 else CountSteps(Init(lines)) + if Last(lines).StepLine? then 1 else 0
  }

  function TotalSteps(lines: seq<Line>, ids: seq<string>): nat {
    if ids == [] then 0 else TotalSteps(lines, Init(ids)) + |StepsOf(lines, Last(ids))|
  }

  predicate Distinct(ids: seq<string>) { ids == [] || (Distinct(Init(ids)) && Last(ids) !in Init(ids)) }

  /** One more line adds its step to the total exactly when its job is among those counted;
      a row of one of these jobs would have dropped its steps. */
  lemma {:induction false} TotalAfterLine(lines: seq<Line>, ids: seq<string>)
    requires lines != [] && Distinct(ids) && (Last(lines).JobLine? ==> Last(lines).job.jobId !in ids)
    ensures TotalSteps(lines, ids) ==
      TotalSteps(Init(lines), ids) + if Last(lines).StepLine? && Last(lines).main in ids then 1 else 0
    decreases |ids|
  {
    if ids != [] {
      TotalAfterLine(lines, Init(ids));
      assert ids == Init(ids) + [Last(ids)];
    }
  }

  lemma {:induction false} JobIdsAreDistinct(lines: seq<Line>)
    ensures Distinct(JobIds(lines))
    decreases |lines|
  {
    if lines != [] {
      JobIdsAreDistinct(Init(lines));
      assert forall id :: Init(JobIds(Init(lines)) + [id]) == JobIds(Init(lines));
    }
  }

  predicate NoJobTwice(lines: seq<Line>) {
    lines == [] ||
    (NoJobTwice(Init(lines)) && (Last(lines).JobLine? ==> Last(lines).job.jobId !in JobIds(Init(lines))))
  }

  /** Nothing is lost or duplicated: the steps under all jobs together are as many as the step rows. */
  lemma {:induction false} StepsAreConserved(lines: seq<Line>)
    requires InOrder(lines) && NoJobTwice(lines)
    ensures TotalSteps(lines, JobIds(lines)) == CountSteps(lines)
    decreases |lines|
  {
    if lines != [] {
      StepsAreConserved(Init(lines));
      JobIdsAreDistinct(Init(lines));
      TotalAfterLine(lines, JobIds(Init(lines)));
      if Last(lines).JobLine? {
        assert StepsOf(lines, Last(lines).job.jobId) == [];
        assert Init(JobIds(lines)) == JobIds(Init(lines));
      }
    }
  }

  // ---------------------------------------------------------------- other widths

  /** The lines that have exactly twenty fields. */
  function FullLines(lines: seq<string>): seq<string> {
    if lines == [] then []
    else if |Split(Last(lines), '|')| == WIDTH then FullLines(Init(lines)) + [Last(lines)]
    else FullLines(Init(lines))
  }

  /** For any output whatever, lines of other widths can be removed without changing the result. */
  lemma {:induction false} OtherWidthsDoNotMatter(lines: seq<string>)
    ensures ReadLines(FullLines(lines)) == ReadLines(lines)
    decreases |lines|
  {
    if lines != [] {
      OtherWidthsDoNotMatter(Init(lines));
      var full := FullLines(Init(lines));
      assert (full + [Last(lines)])[..|full|] == full;
    }
  }

  // ---------------------------------------------------------------- when a report fails

  predicate IsOptionalInteger(s: string) { s == "" || PyInt(s).Some? }

  /** A row whose exit code lacks its colon, or whose integers do not read. */
  predicate IsMalformed(row: seq<string>)
    requires |row| == WIDTH
  {
    || (row[3] != "" && ':' !in row[3])
    || if '.' in row[0] then !IsOptionalInteger(row[12]) || !IsOptionalInteger(row[17])
       else !IsOptionalInteger(row[9])
  }

  predicate IsJobLine(line: string, id: string) {
    |Split(line, '|')| == WIDTH && Split(line, '|')[0] == id && '.' !in id
  }

  predicate HasJob(lines: seq<string>, id: string) { exists i | 0 <= i < |lines| :: IsJobLine(lines[i], id) }

  /** A line that cannot follow these: malformed, with two dots in its id, or a step without its job. */
  predicate Breaks(before: seq<string>, line: string) {
    var row := Split(line, '|');
    |row| == WIDTH &&
    (|| IsMalformed(row)
     || ('.' in row[0] && (|Split(row[0], '.')| != 2 || !HasJob(before, Split(row[0], '.')[0]))))
  }

  lemma {:induction false} OneFieldIffAbsent(s: string, sep: char)
    ensures sep !in s <==> |Split(s, sep)| == 1
    decreases |s|
  {
    if s != "" {
      OneFieldIffAbsent(s[1..], sep);
      assert s == [s[0]] + s[1..];
    }
  }

  lemma MalformedIff(row: seq<string>)
    requires |row| == WIDTH
    ensures IsMalformed(row) <==> if '.' in row[0] then ParseStep(row).None? else ParseJob(row).None?
  {
    OneFieldIffAbsent(row[3], ':');
  }

  lemma RowFailsIff(t: Table, before: seq<string>, line: string)
    requires forall id :: id in t.jobs <==> HasJob(before, id)
    ensures ReadRow(t, Split(line, '|')).Err? <==> Breaks(before, line)
  {
    var row := Split(line, '|');
    if |row| == WIDTH {
      MalformedIff(row);
    }
  }

  lemma RowAddsItsJob(t: Table, line: string, id: string)
    requires ReadRow(t, Split(line, '|')).Ok?
    ensures id in ReadRow(t, Split(line, '|')).value.jobs <==> id in t.jobs || IsJobLine(line, id)
  {
  }

  /** The jobs known after any lines are those that have had a row. */
  lemma {:induction false} KnownJobs(lines: seq<string>, id: string)
    requires ReadLines(lines).Ok?
    ensures id in ReadLines(lines).value.jobs <==> HasJob(lines, id)
    decreases |lines|
  {
    if lines != [] {
      var n := |lines| - 1;
      KnownJobs(lines[..n], id);
      RowAddsItsJob(ReadLines(lines[..n]).value, lines[n], id);
      assert forall i | 0 <= i < n :: lines[..n][i] == lines[i];
    }
  }

  /** For any output whatever, reading fails exactly if some line cannot follow those before it. */
  lemma {:induction false} ReadingFailsIff(lines: seq<string>)
    ensures ReadLines(lines).Err? <==> exists i | 0 <= i < |lines| :: Breaks(lines[..i], lines[i])
    decreases |lines|
  {
    if lines != [] {
      var n := |lines| - 1;
      ReadingFailsIff(lines[..n]);
      assert forall i | 0 <= i < n :: lines[..n][..i] == lines[..i] && lines[..n][i] == lines[i];
      if ReadLines(lines[..n]).Ok? {
        forall id ensures id in ReadLines(lines[..n]).value.jobs <==> HasJob(lines[..n], id) {
          KnownJobs(lines[..n], id);
        }
        RowFailsIff(ReadLines(lines[..n]).value, lines[..n], lines[n]);
      } else {
        var i :| 0 <= i < n && Breaks(lines[..n][..i], lines[..n][i]);
        assert Breaks(lines[..i], lines[i]);
      }
    }
  }
}
