# Missed-execution watchdog for a StreamSets Control Hub job

A Dafny model of the decision core of `notify-on-missed-execution.py`. The
script runs periodically, for example from cron. It fetches one job from
StreamSets Control Hub and reads its status and run history. It works out
the Data Collector's UTC offset from the `%z` text of the current local
time. Then it decides whether the job has missed its expected run. If the
job missed its run, or is in any status other than `INACTIVE`, it sends one
email.

Files and modules:

- `utc_offset.dfy`, module `UtcOffset`: `get_sdc_utc_offset_millis`.
  - `SdcUtcOffsetMillisAsWritten` follows the script's character slicing exactly, with Python's `IndexError`/`ValueError` as `Err` results.
  - `AsWrittenClosedForm` gives its value on every `±HHMM` text.
  - `SdcUtcOffsetMillis` is the corrected parser (see Findings). Only `Watchdog.RunWatchdogCorrected` uses it.
- `local_time.dfy`, module `LocalTime`: `convert_utc_millis_to_sdc_local_datetime`.
  - The library rendering `str(datetime.fromtimestamp(...))` is a function parameter of type `int -> string`.
  - The shift by the offset and the `[0:19]` trim are modelled.
- `missed_execution.dfy`, module `MissedExecution`: the decision block.
  - `Evaluate` is the four-way outcome (no action, missed execution, no history, unexpected status).
  - `Effect` maps an outcome to what the run does: an exit code and at most one email.
  - `CheckJob` is the script's imperative version, with its `notify` flag and `+=` message building. It is proved to produce `Effect(Evaluate(...))`.
- `watchdog.dfy`, module `Watchdog`: one invocation after the job is fetched.
  - `RunWatchdog` is the script's run: it parses the offset with the as-written parser, then runs `CheckJob`.
  - `RunWatchdogCorrected` is the same run with the corrected parser.
- `time_units.dfy`, module `TimeUnits`: the millisecond lengths of a minute, an hour and a half hour.

Inputs that stand in for I/O:

- the `%z` text replaces the `pytz` lookup;
- `nowMillis` replaces `time.time() * 1000`;
- a `Job` value replaces the Control Hub SDK object;
- the `fromTimestamp` formatter replaces `datetime.fromtimestamp`.

Two behaviours of the script are easy to misread. The model follows the code in both:

- A check exactly at the deadline is not a miss: the comparison at line 168 is strict (`deadline < now`).
- `+0530` yields 5 hours, not 5.5 hours, because of how the half-hour test at line 104 slices the text (see Findings).

## Model

| member | source | states |
|---|---|---|
| `UtcOffset.PyInt` | python/notify-on-missed-execution.py:101 | `int()` succeeds exactly when the text after an optional sign is one or more digits, and raises ValueError otherwise; on digits alone it is their value; with a `+` it is the value of the digits and with a `-` their negation |
| `UtcOffset.DropLastTwo` | python/notify-on-missed-execution.py:101 | `s[:-2]` is a prefix of `s`, two characters shorter, or empty for texts under two characters |
| `UtcOffset.FromIndexTwo` | python/notify-on-missed-execution.py:104 | `s[2:]` is what follows the first two characters, or empty |
| `UtcOffset.SdcUtcOffsetMillisAsWritten` | python/notify-on-missed-execution.py:84-113 | on any text: empty text or a lone `-` raises IndexError; every value it returns is a whole number of half hours (multiple of 1,800,000 ms) |
| `UtcOffset.HalfHourMultiple` | python/notify-on-missed-execution.py:105-111 | whole hours plus an optional half hour, of either sign, is a multiple of 1,800,000 ms |
| `UtcOffset.AsWrittenClosedForm` | python/notify-on-missed-execution.py:89-113 | on every `±HHMM` text the parse succeeds and equals sign × (HH × 3,600,000 + 1,800,000 only for `-HH30` with first hour digit not `0`) |
| `UtcOffset.LeadingMinusNegates` | python/notify-on-missed-execution.py:89-113 | a leading `-` gives the negation of what the rest parses to, errors passing through unchanged |
| `UtcOffset.SignOfAsWritten` | python/notify-on-missed-execution.py:92-113 | on `±HHMM`: a `+` text gives a non-negative result, a `-` text a non-positive one, and zero exactly when the hours are 0 and no half hour is added |
| `UtcOffset.MinutesIgnoredAsWritten` | python/notify-on-missed-execution.py:101-105 | minute digits affect the result only through the exact `30` test: same sign and hours, and both or neither showing 30, give the same result |
| `UtcOffset.AsWrittenExamples` | python/notify-on-missed-execution.py:84-113 | `-0800` → −28,800,000; `+0000` → 0; `-1030` → −37,800,000; `+0530` → 18,000,000; `-0330` → −10,800,000 |
| `UtcOffset.SdcUtcOffsetMillis` | python/notify-on-missed-execution.py:92-113 | corrected parser: succeeds exactly on `±HHMM`; for 00 or 30 minutes the result is sign × (HH × 60 + MM) minutes in ms; always a multiple of 1,800,000 (other minute digits are dropped, as in the script) |
| `UtcOffset.AsWrittenAgreesUnlessHalfHourMissed` | python/notify-on-missed-execution.py:92-105 | on `±HHMM` the as-written and corrected parsers agree iff the text does not show 30 minutes with a `+` sign or a `0` first hour digit |
| `UtcOffset.HalfHourZonesMisread` | python/notify-on-missed-execution.py:103-105 | `+0530` parses to 18,000,000 as written against 19,800,000 intended; `-0330` to −10,800,000 against −12,600,000 |
| `LocalTime.ConvertUtcMillisToSdcLocalDatetime` | python/notify-on-missed-execution.py:74-78 | the rendered text is the first min(19, length) characters of the formatter applied to UTC + offset |
| `LocalTime.RenderingDependsOnlyOnLocalInstant` | python/notify-on-missed-execution.py:75 | two (UTC instant, offset) pairs with the same sum render the same text |
| `MissedExecution.Evaluate` | python/notify-on-missed-execution.py:137-190 | unexpected status iff status ≠ `INACTIVE`; no history iff `INACTIVE` with empty history; missed execution iff `INACTIVE`, history non-empty and more than frequency × 60,000 ms have elapsed since the most recent start; no action otherwise |
| `MissedExecution.Effect` | python/notify-on-missed-execution.py:180-212 | the exit code is non-zero only for the no-history abort; an email is sent exactly for a missed execution or an unexpected status, and it is that outcome's email |
| `MissedExecution.CheckJob` | python/notify-on-missed-execution.py:136-192 | the flag-and-accumulate block yields exactly the exit code and email of `Effect(Evaluate(...))` |
| `MissedExecution.NotifiedIffStrictlyPastDeadline` | python/notify-on-missed-execution.py:158-178 | for `INACTIVE` with history: exit code 0; an email is sent iff run_history[0].time + frequency × 60,000 < now; now exactly at the deadline gives no action |
| `MissedExecution.MissedExecutionPayload` | python/notify-on-missed-execution.py:174-177 | missed-execution subject is `Missed Execution for Job: ` + name; the body gives, in local time, the last start, the deadline and now, in the script's wording |
| `MissedExecution.UnexpectedStatusAlwaysNotifies` | python/notify-on-missed-execution.py:185-190 | any status other than `INACTIVE` sends one email with exit code 0, whatever the history, time and offset; subject `Unexpected status for StreamSets Job: ` + name; body ends with `\nActual Job status is '<status>'` |
| `MissedExecution.NoHistoryAborts` | python/notify-on-missed-execution.py:145-183 | `INACTIVE` with empty history exits with −1 and sends no email, whatever the time |
| `MissedExecution.OnlyMostRecentRunMatters` | python/notify-on-missed-execution.py:148 | two histories that share their first entry give the same outcome, email included |
| `MissedExecution.OffsetOnlyChangesRenderedTimes` | python/notify-on-missed-execution.py:151-168 | changing the offset or the formatter never changes which outcome occurs, and changes no outcome other than a missed execution's rendered times |
| `MissedExecution.DailyJobBoundary` | python/notify-on-missed-execution.py:158-168 | a daily job last started at 2024-01-01T00:00:00Z: no action at exactly 2024-01-02T00:00:00Z, missed execution one second later |
| `Watchdog.RunWatchdog` | python/notify-on-missed-execution.py:134-192 | when the as-written parser raises, the run ends with exit code 1 and no email; otherwise the run is `Effect(Evaluate(...))` at the as-written offset, which on `±HHMM` is the closed form of `AsWrittenClosedForm`; an email is only ever sent on exit code 0 |
| `Watchdog.RunWatchdogCorrected` | python/notify-on-missed-execution.py:134-192 | the same run with the corrected parser: text that is not `±HHMM` ends with exit code 1 and no email; otherwise `Effect(Evaluate(...))` at the corrected offset |

## Findings

| source | as written | input that shows it | evidently intended | confidence | as-written member | corrected member |
|---|---|---|---|---|---|---|
| python/notify-on-missed-execution.py:92-105 | the half-hour test `offset[2:] == '30'` is applied after only `-` and a leading `0` are stripped, so it looks at the right characters only for `-HH30` with a non-zero first hour digit | `+0530` (India) gives 18,000,000 ms (5 h); `-0330` (Newfoundland) gives −10,800,000 ms (−3 h) | add half an hour whenever the minute digits are `30`: `+0530` → 19,800,000, `-0330` → −12,600,000 | high; not executed | `UtcOffset.SdcUtcOffsetMillisAsWritten` (used by `Watchdog.RunWatchdog`; exhibited by `UtcOffset.HalfHourZonesMisread` and characterised by `UtcOffset.AsWrittenAgreesUnlessHalfHourMissed`) | `UtcOffset.SdcUtcOffsetMillis` (used by `Watchdog.RunWatchdogCorrected`) |

## Left out

- Control Hub connection and job lookup, including the `JobNotFound` exit (lines 118–127): a remote SDK call. The fetched job is the `Job` input.
- SMTP/TLS sending (lines 194–209): network I/O. The model ends at the email in `RunResult.sent`. A delivery failure would raise in the script; that is not modelled.
- The `pytz` lookup and `strftime('%z')` (line 87): a library and the wall clock. The `%z` text is an input.
- `time.time()` (line 154): the clock is the integer input `nowMillis`. Python compares a float, so a `now` a fraction of a millisecond past an integer deadline notifies in the script. The model cannot express that case.
- `datetime.fromtimestamp` and `str` (line 76): a library that also applies the host's own zone. It is the `fromTimestamp` parameter, and it receives local epoch milliseconds rather than float seconds.
- LocalTime.ConvertUtcMillisToSdcLocalDatetime: the formatter is assumed never to fail. `datetime.fromtimestamp` raises on instants outside its range. The script renders all three times (lines 151, 160, 162) before the comparison at line 168, so such an input ends the script with exit 1 even when no action was due. The model does not capture that exit.
- The float arithmetic of `offset_hours + .5` (lines 105–108): every value is a multiple of 1,800,000 ms, so exact integers give the same numbers.
- Configuration constants, environment reads and all console output (lines 50–69, the `print` calls): not logic.
- UtcOffset.PyInt: models `int()` only on an optional sign followed by ASCII digits. Other forms Python accepts (surrounding whitespace, `_` separators, non-ASCII digits) are a ValueError here. `%z` text never contains them.
- UtcOffset.AsWrittenClosedForm: covers five-character `±HHMM` text only. Python may also print `±HHMMSS` for offsets with seconds. `pytz` offsets are whole minutes.
- MissedExecution.NoHistoryAborts: records −1, the argument of `sys.exit`. The operating system reports it as 255.
- Repeated runs with the same inputs give the same result because `Evaluate` and `Effect` are functions. No separate lemma states it.
- A positive frequency is not enforced, since the script does not check it. Every lemma holds for any integer frequency.
