/**
 * One invocation of the watchdog script after the job has been fetched:
 * work out the Data Collector's offset from its `%z` text, then run the
 * decision block.
 */
module Watchdog {
  import UtcOffset
  import LocalTime
  import MissedExecution
  import TimeUnits

  /** The exit status of a Python process that ends with an uncaught exception. */
  const UncaughtExceptionExitCode: int := 1

  /**
   * The script's run: it parses the offset with its own slicing parser
   * before looking at the status. A parse that raises ends the run with an
   * exception and no email; otherwise the run does what the decision says,
   * with the parsed offset used only to render times.
   */
  method RunWatchdog(offsetText: string, job: MissedExecution.Job, frequencyMinutes: int, nowMillis: int,
                     fromTimestamp: LocalTime.Formatter) returns (r: MissedExecution.RunResult)
    ensures UtcOffset.SdcUtcOffsetMillisAsWritten(offsetText).Err?
            ==> r == MissedExecution.RunResult(UncaughtExceptionExitCode, MissedExecution.None)
    ensures UtcOffset.SdcUtcOffsetMillisAsWritten(offsetText).Ok?
            ==> r == MissedExecution.Effect(MissedExecution.Evaluate(
                       job, UtcOffset.SdcUtcOffsetMillisAsWritten(offsetText).value,
                       frequencyMinutes, nowMillis, fromTimestamp))
    ensures UtcOffset.IsZText(offsetText)
            ==> r == MissedExecution.Effect(MissedExecution.Evaluate(
                       job,
                       UtcOffset.SignOf(offsetText)
                         * (UtcOffset.HourField(offsetText) * TimeUnits.MillisPerHour
                            + (if UtcOffset.AsWrittenHalfHour(offsetText) then TimeUnits.HalfHourMillis else 0)),
                       frequencyMinutes, nowMillis, fromTimestamp))
    ensures r.sent.Some? ==> r.exitCode == 0
  {
    var parsed := UtcOffset.SdcUtcOffsetMillisAsWritten(offsetText);
    if UtcOffset.IsZText(offsetText) {
      UtcOffset.AsWrittenClosedForm(offsetText);
    }
    if parsed.Err? {
      r := MissedExecution.RunResult(UncaughtExceptionExitCode, MissedExecution.None);
      return;
    }
    var sdcOffsetMillis := parsed.value;
    r := MissedExecution.CheckJob(job, sdcOffsetMillis, frequencyMinutes, nowMillis, fromTimestamp);
  }

  /**
   * The same run with the half-hour test corrected: text that is not
   * `±HHMM` ends the run with an exception, and otherwise the decision
   * renders its times at the true whole- or half-hour offset.
   */
  method RunWatchdogCorrected(offsetText: string, job: MissedExecution.Job, frequencyMinutes: int, nowMillis: int,
                              fromTimestamp: LocalTime.Formatter) returns (r: MissedExecution.RunResult)
    ensures !UtcOffset.IsZText(offsetText)
            ==> r == MissedExecution.RunResult(UncaughtExceptionExitCode, MissedExecution.None)
    ensures UtcOffset.IsZText(offsetText)
            ==> r == MissedExecution.Effect(MissedExecution.Evaluate(
                       job, UtcOffset.SdcUtcOffsetMillis(offsetText).value, frequencyMinutes, nowMillis, fromTimestamp))
    ensures r.sent.Some? ==> r.exitCode == 0
  {
    var parsed := UtcOffset.SdcUtcOffsetMillis(offsetText);
    if parsed.Err? {
      r := MissedExecution.RunResult(UncaughtExceptionExitCode, MissedExecution.None);
      return;
    }
    var sdcOffsetMillis := parsed.value;
    r := MissedExecution.CheckJob(job, sdcOffsetMillis, frequencyMinutes, nowMillis, fromTimestamp);
  }
}
