/**
 * The missed-execution decision: given the job's status and run history
 * (as fetched from Control Hub), the Data Collector's UTC offset, the
 * expected run frequency and the current time, decide whether to send one
 * notification email, send none, or abort because the job never ran.
 *
 * `Evaluate` is the decision as a four-way outcome; `CheckJob` is the
 * script's flag-and-accumulate version, proved to produce the observable
 * effect of that outcome.
 */
module MissedExecution {
  import LocalTime
  import opened TimeUnits

  /** The one status the watchdog expects to see between runs. */
  const Inactive: string := "INACTIVE"

  /** The argument of `sys.exit` when the job has no run history. */
  const NoHistoryExitCode: int := -1

  /** One entry of the job's run history: its start time, epoch milliseconds in UTC. */
  datatype RunRecord = RunRecord(time: int)

  /** The fields of the fetched job that the decision reads; history is most recent first. */
  datatype Job = Job(name: string, id: string, status: string, runHistory: seq<RunRecord>)

  datatype Email = Email(subject: string, body: string)

  datatype Outcome =
    | NoAction
    | MissedExecution(email: Email)
    | NoHistory
    | UnexpectedStatus(email: Email)

  datatype Option<T> = None | Some(value: T)

  /** What one run of the script does: its exit code and the email it sends, if any. */
  datatype RunResult = RunResult(exitCode: int, sent: Option<Email>)

  /** The instant by which the next run should have started. */
  function Deadline(lastRunMillis: int, frequencyMinutes: int): int {
    lastRunMillis + frequencyMinutes * 1000 * 60
  }

  function MissedExecutionEmail(jobName: string, lastRunTime: string, deadlineTime: string, currentTime: string): Email {
    Email("Missed Execution for Job: " + jobName,
          "\nThe last execution of the Job was at " + lastRunTime
          + "\nThe next Job execution was expected by " + deadlineTime
          + "\nAs of " + currentTime + " the expected Job run has not yet started.")
  }

  function UnexpectedStatusEmail(job: Job): Email {
    Email("Unexpected status for StreamSets Job: " + job.name,
          "Unexpected status for StreamSets Job " + "'" + job.name + "' with Job ID '" + job.id + "'"
          + "\nExpected Job status is 'INACTIVE'"
          + "\nActual Job status is '" + job.status + "'")
  }

  /**
   * The decision. A job that is not INACTIVE is reported whatever its
   * history; an INACTIVE job without history is an abort; otherwise the
   * job has missed its run exactly when more than the expected frequency
   * has elapsed since its most recent start.
   */
  function Evaluate(job: Job, sdcOffsetMillis: int, frequencyMinutes: int, nowMillis: int,
                    fromTimestamp: LocalTime.Formatter): (o: Outcome)
    ensures o.UnexpectedStatus? <==> job.status != Inactive
    ensures o.NoHistory? <==> job.status == Inactive && |job.runHistory| == 0
    ensures o.MissedExecution? <==> job.status == Inactive && |job.runHistory| > 0
                                    && nowMillis - job.runHistory[0].time > frequencyMinutes * MillisPerMinute
    ensures o.NoAction? <==> job.status == Inactive && |job.runHistory| > 0
                             && nowMillis - job.runHistory[0].time <= frequencyMinutes * MillisPerMinute
  {
    if job.status != Inactive then
      UnexpectedStatus(UnexpectedStatusEmail(job))
    else if |job.runHistory| == 0 then
      NoHistory
    else
      var lastRunTimeMillis := job.runHistory[0].time;
      var deadlineMillis := Deadline(lastRunTimeMillis, frequencyMinutes);
      if deadlineMillis < nowMillis then
        MissedExecution(MissedExecutionEmail(
          job.name,
          LocalTime.ConvertUtcMillisToSdcLocalDatetime(lastRunTimeMillis, sdcOffsetMillis, fromTimestamp),
          LocalTime.ConvertUtcMillisToSdcLocalDatetime(deadlineMillis, sdcOffsetMillis, fromTimestamp),
          LocalTime.ConvertUtcMillisToSdcLocalDatetime(nowMillis, sdcOffsetMillis, fromTimestamp)))
      else
        NoAction
  }

  /** The script's observable behaviour for an outcome: the exit code and at most one email. */
  function Effect(o: Outcome): (r: RunResult)
    ensures r.exitCode != 0 <==> o.NoHistory?
    ensures r.sent.Some? <==> o.MissedExecution? || o.UnexpectedStatus?
    ensures r.sent.Some? ==> r.sent.value == o.email
  {
    match o
    case NoAction => RunResult(0, None)
    case MissedExecution(e) => RunResult(0, Some(e))
    case NoHistory => RunResult(NoHistoryExitCode, None)
    case UnexpectedStatus(e) => RunResult(0, Some(e))
  }

  /**
   * The script's decision block: a `notify` flag and an email subject and
   * message built up piece by piece, then one send if the flag is set.
   * The current time and the offset are inputs.
   */
  method CheckJob(job: Job, sdcOffsetMillis: int, frequencyMinutes: int, nowMillis: int,
                  fromTimestamp: LocalTime.Formatter) returns (r: RunResult)
    ensures r == Effect(Evaluate(job, sdcOffsetMillis, frequencyMinutes, nowMillis, fromTimestamp))
  {
    var jobExpectedFrequencyMillis := frequencyMinutes * 1000 * 60;
    var notify := false;
    var emailSubject: string := "";
    var emailMessage: string := "";

    if job.status == Inactive {
      if |job.runHistory| > 0 {
        var lastRunTimeMillis := job.runHistory[0].time;
        var lastRunTime := LocalTime.ConvertUtcMillisToSdcLocalDatetime(lastRunTimeMillis, sdcOffsetMillis, fromTimestamp);
        var jobDeadlineMillis := lastRunTimeMillis + jobExpectedFrequencyMillis;
        var jobDeadlineTime := LocalTime.ConvertUtcMillisToSdcLocalDatetime(jobDeadlineMillis, sdcOffsetMillis, fromTimestamp);
        var currentTime := LocalTime.ConvertUtcMillisToSdcLocalDatetime(nowMillis, sdcOffsetMillis, fromTimestamp);
        if jobDeadlineMillis < nowMillis {
          emailSubject := "Missed Execution for Job: " + job.name;
          emailMessage := "\nThe last execution of the Job was at " + lastRunTime;
          emailMessage := emailMessage + ("\nThe next Job execution was expected by " + jobDeadlineTime);
          emailMessage := emailMessage + ("\nAs of " + currentTime + " the expected Job run has not yet started.");
          notify := true;
          assert Email(emailSubject, emailMessage) == MissedExecutionEmail(job.name, lastRunTime, jobDeadlineTime, currentTime);
        }
      } else {
        r := RunResult(NoHistoryExitCode, None);
        return;
      }
    } else {
      emailSubject := "Unexpected status for StreamSets Job: " + job.name;
      emailMessage := "Unexpected status for StreamSets Job " + "'" + job.name + "' with Job ID '" + job.id + "'";
      emailMessage := emailMessage + "\nExpected Job status is 'INACTIVE'";
      emailMessage := emailMessage + ("\nActual Job status is '" + job.status + "'");
      notify := true;
      assert Email(emailSubject, emailMessage) == UnexpectedStatusEmail(job);
    }

    if notify {
      r := RunResult(0, Some(Email(emailSubject, emailMessage)));
    } else {
      r := RunResult(0, None);
    }
  }

  // ---------------------------------------------------------------------
  // Properties of the decision

  /**
   * For an INACTIVE job with history, an email goes out exactly when the
   * deadline is strictly before now; a check landing on the deadline sends
   * nothing, and the run exits normally either way.
   */
  lemma NotifiedIffStrictlyPastDeadline(job: Job, sdcOffsetMillis: int, frequencyMinutes: int, nowMillis: int,
                                        fromTimestamp: LocalTime.Formatter)
    requires job.status == Inactive && |job.runHistory| > 0
    ensures var r := Effect(Evaluate(job, sdcOffsetMillis, frequencyMinutes, nowMillis, fromTimestamp));
            r.exitCode == 0
            && (r.sent.Some? <==> Deadline(job.runHistory[0].time, frequencyMinutes) < nowMillis)
    ensures nowMillis == Deadline(job.runHistory[0].time, frequencyMinutes)
            ==> Evaluate(job, sdcOffsetMillis, frequencyMinutes, nowMillis, fromTimestamp) == NoAction
  {
  }

  /**
   * The missed-execution email names the job in its subject and gives, in
   * local time, the last start, the deadline (last start plus the frequency)
   * and the current time.
   */
  lemma MissedExecutionPayload(job: Job, sdcOffsetMillis: int, frequencyMinutes: int, nowMillis: int,
                               fromTimestamp: LocalTime.Formatter)
    requires Evaluate(job, sdcOffsetMillis, frequencyMinutes, nowMillis, fromTimestamp).MissedExecution?
    ensures var e := Evaluate(job, sdcOffsetMillis, frequencyMinutes, nowMillis, fromTimestamp).email;
            var last := job.runHistory[0].time;
            var local := (u: int) => LocalTime.ConvertUtcMillisToSdcLocalDatetime(u, sdcOffsetMillis, fromTimestamp);
            e.subject == "Missed Execution for Job: " + job.name
            && e.body == "\nThe last execution of the Job was at " + local(last)
                         + "\nThe next Job execution was expected by " + local(last + frequencyMinutes * MillisPerMinute)
                         + "\nAs of " + local(nowMillis) + " the expected Job run has not yet started."
  {
  }

  /**
   * A status other than INACTIVE always produces one email, whatever the
   * history, the time or the offset; its subject names the job and its
   * body ends by quoting the status that was found.
   */
  lemma UnexpectedStatusAlwaysNotifies(job: Job, sdcOffsetMillis: int, frequencyMinutes: int, nowMillis: int,
                                       fromTimestamp: LocalTime.Formatter)
    requires job.status != Inactive
    ensures var o := Evaluate(job, sdcOffsetMillis, frequencyMinutes, nowMillis, fromTimestamp);
            var tail := "\nActual Job status is '" + job.status + "'";
            && Effect(o) == RunResult(0, Some(o.email))
            && o.email.subject == "Unexpected status for StreamSets Job: " + job.name
            && |tail| <= |o.email.body|
            && o.email.body[|o.email.body| - |tail|..] == tail
  {
  }

  /** An INACTIVE job with no history aborts with exit code -1 and sends nothing, whatever the time. */
  lemma NoHistoryAborts(job: Job, sdcOffsetMillis: int, frequencyMinutes: int, nowMillis: int,
                        fromTimestamp: LocalTime.Formatter)
    requires job.status == Inactive && |job.runHistory| == 0
    ensures Effect(Evaluate(job, sdcOffsetMillis, frequencyMinutes, nowMillis, fromTimestamp))
            == RunResult(NoHistoryExitCode, None)
  {
  }

  /** Only the most recent run is consulted: histories that share their first entry decide alike. */
  lemma OnlyMostRecentRunMatters(job: Job, otherHistory: seq<RunRecord>, sdcOffsetMillis: int,
                                 frequencyMinutes: int, nowMillis: int, fromTimestamp: LocalTime.Formatter)
    requires |job.runHistory| > 0 && |otherHistory| > 0 && otherHistory[0] == job.runHistory[0]
    ensures Evaluate(job, sdcOffsetMillis, frequencyMinutes, nowMillis, fromTimestamp)
         == Evaluate(job.(runHistory := otherHistory), sdcOffsetMillis, frequencyMinutes, nowMillis, fromTimestamp)
  {
  }

  /**
   * The offset and the formatter feed only the rendered times: changing
   * them never changes which outcome occurs, and leaves every outcome
   * other than a missed execution unchanged in full.
   */
  lemma OffsetOnlyChangesRenderedTimes(job: Job, offset1: int, offset2: int, frequencyMinutes: int, nowMillis: int,
                                       format1: LocalTime.Formatter, format2: LocalTime.Formatter)
    ensures var o1 := Evaluate(job, offset1, frequencyMinutes, nowMillis, format1);
            var o2 := Evaluate(job, offset2, frequencyMinutes, nowMillis, format2);
            && o1.NoAction? == o2.NoAction?
            && o1.MissedExecution? == o2.MissedExecution?
            && o1.NoHistory? == o2.NoHistory?
            && o1.UnexpectedStatus? == o2.UnexpectedStatus?
            && (!o1.MissedExecution? ==> o1 == o2)
  {
  }

  /**
   * A daily job last started at 2024-01-01T00:00:00Z: no action at exactly
   * 2024-01-02T00:00:00Z, a missed execution one second later.
   */
  lemma DailyJobBoundary(fromTimestamp: LocalTime.Formatter)
    ensures var job := Job("daily", "id", Inactive, [RunRecord(1_704_067_200_000)]);
            && Evaluate(job, 0, 24 * 60, 1_704_153_600_000, fromTimestamp) == NoAction
            && Evaluate(job, 0, 24 * 60, 1_704_153_601_000, fromTimestamp).MissedExecution?
  {
  }
}
