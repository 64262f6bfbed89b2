# UAC Steam Downloader Scheduler, modelled in Dafny

`steamDL_form.py` is a small desktop tool. It tails Steam's content log until a
line announces that an update has finished, and can then shut the PC down. It
can also start a game's download through a `steam://rungameid/` URI at a
wall-clock time typed as `HH:MM`. While it runs, it cycles the colour of its
title label.

This project models the logic behind those features, with the widgets,
threads, files and OS calls removed, and proves what it promises:

- `monitor.dfy`, module `Monitor`: the keyword-tail engine of `LogMonitorWorker`.
  - The file is abstracted as a sequence of `Step`s. Each step is one
    `readline()` result (`""` when no new data had arrived and the worker
    sleeps), a `stop()` call seen at the next `while` check, or an exception
    raised by the file.
  - `Poll` is where the loop ends for a given sequence of steps. `Run` lists
    every signal `start_monitoring` emits.
  - The class `LogMonitorWorker` keeps the `_running` flag and the emitted
    signals as fields. Its `while running` loop is proved to emit exactly
    `Run`.
- `schedule.dfy`, module `Schedule`, holds the pure parts of the scheduler:
  - the `HH:MM` check of `schedule_download` (`ParseSchedule`) and the
    `HH:MM` formatting of its confirmation message;
  - one tick of `check_scheduled_download` as a function of the armed time
    and the clock reading (`Tick`);
  - the Steam command of `start_download` (`LaunchCommand`).
- `colour.dfy`, module `TitleColour`: the arithmetic of `animate_title_color`.
  Its walk is proved equal to an explicit walk around the RGB colour hexagon.
- `window.dfy`, module `Window`: the `MainWindow` fields that the handlers
  update in place.
  - Fields: the title colour, the AppID and time texts, the shutdown
    checkbox, the armed time and the schedule timer.
  - Lines appended to the log area, warning dialogs and `os.system` commands
    are recorded as sequences.
- `text.dfy`, module `Text`: the Python string operations the program relies
  on: `strip()`, `lower()`, `in`, `split(':')`, `int()` and `f"{n:02d}"`.
- `options.dfy`, module `Options`: the `Option` and `Result` types.

Three behaviours of the program are worth stating outright:

- The worker emits no event for a line that does not match. It sends only
  `log_signal`, `found_signal` and `stopped_signal`. The keyword appears only
  inside the log message, not as a separate event.
- The time fields are read with `int()`, which does not ask for two digits.
  So `"9:5"` is accepted as 09:05 (`Schedule.UnpaddedAccepted`), just as
  `"09:05"` is. `"24:00"`, `"12:60"` and `"abc"` are refused. `int()` does
  refuse more than 4300 digits, leading zeros included, so an hour padded
  with 4301 zeros is refused (`Schedule.OverlongHourRefused`).
- `strip()` and `int()` skip different whitespace. `strip()` also removes the
  separators 0x1C to 0x1F, but `int()` does not skip them. So
  `"9\x1c:5"` strips to itself and is refused with the format warning
  (`Schedule.InnerSeparatorRefused`).

## Model

| member | source | states |
|---|---|---|
| Text.Strip | steamDL_form.py:146 | `strip()`: the result is no longer than the text, and neither starts nor ends with whitespace |
| Text.StripShape | steamDL_form.py:146 | the text is the stripped text with a run of whitespace before and after it |
| Text.StripUnique | steamDL_form.py:146 | whitespace around a text without whitespace at its ends is exactly what `strip()` removes |
| Text.StripTrimmed | steamDL_form.py:182 | a text with no whitespace at its ends is unchanged by `strip()` |
| Text.StripIdempotent | steamDL_form.py:146 | stripping twice is stripping once |
| Text.Lower | steamDL_form.py:48 | `lower()`: same length, each character lower-cased, no capital left |
| Text.LowerUnchanged | steamDL_form.py:26 | a text without capitals is its own lower-case form |
| Text.Contains | steamDL_form.py:50 | `kw in lower_line`: a contained keyword is no longer than the line, and one of equal length is contained exactly when it is the line |
| Text.ContainsIff | steamDL_form.py:50 | `kw in lower_line` holds exactly when `kw` occurs at some index of the line |
| Text.ContainsWitness | steamDL_form.py:50 | when `kw in lower_line` holds, there is an index where `kw` occurs |
| Text.OccursContains | steamDL_form.py:50 | an occurrence of `kw` at any index makes `kw in lower_line` hold |
| Text.ContainsInfix | steamDL_form.py:51 | a text written between two others is contained in the result, as the keyword is in the found message |
| Text.Split | steamDL_form.py:152 | `split(':')`: one more part than there are colons (`Count`), and no part holds a colon |
| Text.CountIsMultiplicity | steamDL_form.py:152 | the colon count used by `Split` is the number of colons in the multiset of the text's characters |
| Text.JoinSplit | steamDL_form.py:152 | joining the parts of `split` with the separator gives back the text |
| Text.SplitJoin | steamDL_form.py:152 | splitting a join of colon-free parts gives back the parts |
| Text.IntTrim | steamDL_form.py:155-156 | the text that `int()` reads, less its surrounding whitespace, neither starts nor ends with that whitespace |
| Text.IntTrimShape | steamDL_form.py:155-156 | the text is the trimmed text with a run of `int()` whitespace before and after it |
| Text.IntTrimUnique | steamDL_form.py:155-156 | `int()` whitespace around a text without such whitespace at its ends is exactly what is trimmed |
| Text.ReadSigned | steamDL_form.py:155-156 | an accepted sign-and-digits text ends with a digit, and a negative value comes only from a leading minus |
| Text.ReadSignedComplete | steamDL_form.py:155-156 | an optional sign followed by ASCII digits is read as its signed decimal value when there are at most 4300 digits, and refused when there are more |
| Text.ReadUnsigned | steamDL_form.py:155-156 | unsigned digits are read as their value up to 4300 digits and refused beyond |
| Text.ReadAfterSign | steamDL_form.py:155-156 | digits after '+' or '-' are read as their value, negated under '-', up to 4300 digits, and refused beyond |
| Text.ReadSignedSound | steamDL_form.py:155-156 | only an optional sign followed by one to 4300 ASCII digits is read, at its signed decimal value |
| Text.ParseInt | steamDL_form.py:155-156 | `int()` accepts only text whose trimmed form ends with a digit, and gives a negative value only when that form starts with a minus |
| Text.ParseIntIff | steamDL_form.py:155-156 | `int(text)` is `v` exactly when the text is an optional sign and one to 4300 ASCII digits (leading zeros counted) worth `v`, with `int()` whitespace around them; every other text is refused |
| Text.ParseIntComplete | steamDL_form.py:155-156 | every sign-and-digits text with `int()` whitespace around it is read as its value when it has at most 4300 digits, and refused otherwise |
| Text.ParseIntSound | steamDL_form.py:155-156 | every text `int()` reads is a sign and one to 4300 digits with `int()` whitespace around them, and has their value |
| Text.ParseIntNumeral | steamDL_form.py:155-156 | `int()` of a digit run with `int()` whitespace around it is the run's decimal value, or a refusal beyond 4300 digits |
| Text.ParseIntUnsigned | steamDL_form.py:155-156 | `int()` of a bare digit run is its decimal value, or a refusal beyond 4300 digits |
| Text.ParseIntNegated | steamDL_form.py:155-156 | `int()` of a minus sign and a digit run is the negated value, or a refusal beyond 4300 digits |
| Text.ParseIntRefusesSeparator | steamDL_form.py:155-156 | `int("9\x1c")` is refused: 0x1C is not whitespace to `int()` |
| Text.ParseIntDecimal | steamDL_form.py:155-156 | `int()` reads back the decimal numeral of `n`, and of `-n` with a minus sign, whenever the numeral has at most 4300 digits, and refuses it otherwise |
| Text.ZeroPad2 | steamDL_form.py:162 | `02d`: all digits, at least two, exactly two below 100 |
| Text.ZeroPad2Value | steamDL_form.py:162 | the `02d` text has the formatted number as its decimal value |
| Monitor.LowerAll | steamDL_form.py:26 | the stored keywords are the given ones, each lower-cased, in the same order |
| Monitor.FoundMessage | steamDL_form.py:51 | the found message names the keyword and shows the stripped line |
| Monitor.ExceptionMessage | steamDL_form.py:59-60 | the exception message shows the exception's text |
| Monitor.FirstMatch | steamDL_form.py:49-54 | the keyword loop: the index found holds a keyword the line contains, with none before it; with no index found, no keyword is contained |
| Monitor.LineMatches | steamDL_form.py:43-54 | a read line is reported exactly when it is non-empty and one of the keywords is contained in its lower-cased text |
| Monitor.FirstMatchFrom | steamDL_form.py:49-54 | the index found holds a keyword the line contains, with none before it; with no index found, no keyword is contained |
| Monitor.LineMatchesIff | steamDL_form.py:43-54 | a read line is reported exactly when it is non-empty and some keyword occurs in its lower-cased text |
| Monitor.Decide | steamDL_form.py:42-57 | one step lets the loop go on exactly when it is an empty read or a line matching no keyword |
| Monitor.Poll | steamDL_form.py:42-60 | the loop keeps polling exactly while every step is quiet; it ends on a stop it saw, an exception it saw, or a matching line it read, reporting that line's first keyword in list order |
| Monitor.Run | steamDL_form.py:31-62 | one to four signals, the first the start or not-found message; `found_signal` only when the file exists and the loop ended on a matching line |
| Monitor.PollAt | steamDL_form.py:42-57 | one turn of the loop: the step either decides the outcome or is passed over |
| Monitor.PollQuietPrefix | steamDL_form.py:44-46 | empty reads and non-matching lines leave no trace: the outcome is that of the steps after them |
| Monitor.PollAfterExit | steamDL_form.py:53-57 | once the loop has ended, nothing observed later changes the outcome, so no further line is read |
| Monitor.PollResumes | steamDL_form.py:42-46 | while still polling, later steps decide the outcome alone |
| Monitor.StopIdempotent | steamDL_form.py:64-65 | a second `stop()` right after the first changes nothing |
| Monitor.PollFoundAt | steamDL_form.py:48-54 | a reported line was read with only quiet steps before it |
| Monitor.FoundIff | steamDL_form.py:48-54 | `found_signal` comes exactly when the file exists and a matching line is read before any stop or exception; the log message names the line's first keyword in list order |
| Monitor.StopPreventsFound | steamDL_form.py:42-57 | a stop observed before any matching line rules out `found_signal` |
| Monitor.StoppedOnceAndLast | steamDL_form.py:31-62 | on every path that ends the run, `stopped_signal` comes exactly once and last; a run still polling has not emitted it |
| Monitor.FoundOnceThenStopped | steamDL_form.py:49-62 | `found_signal` comes at most once, immediately before `stopped_signal` |
| Monitor.MissingFileNeverReads | steamDL_form.py:31-34 | without the log file the run emits exactly the error message and `stopped_signal`, whatever the file would hold |
| Monitor.KeywordInLine | steamDL_form.py:48-50 | a lower-case keyword is found in the lower-cased text of any line holding it |
| Monitor.KeywordLineFound | steamDL_form.py:36-62 | a line holding the single keyword gives: start message, found message with the stripped line, `found_signal`, `stopped_signal` |
| Monitor.KeywordHasNoCapitals | steamDL_form.py:17 | the program's keyword has no capitals |
| Monitor.KeywordsLowered | steamDL_form.py:26 | lower-casing the program's keyword list leaves it unchanged |
| Monitor.FinishedUpdateScenario | steamDL_form.py:17-62 | a line holding "finished update", appended after the start, is reported with the line, and the worker stops |
| Monitor.LogMonitorWorker.constructor | steamDL_form.py:24-28 | keywords stored lower-cased, interval kept, `_running` false, nothing emitted |
| Monitor.LogMonitorWorker.WithDefaultInterval | steamDL_form.py:24-28 | without `poll_interval` the interval is 3 seconds; keywords stored lower-cased, `_running` false, nothing emitted |
| Monitor.LogMonitorWorker.Stop | steamDL_form.py:64-65 | `_running` is false afterwards |
| Monitor.LogMonitorWorker.ScanKeywords | steamDL_form.py:49-54 | the keyword loop returns the index of the first keyword the lower-cased line contains, if any |
| Monitor.LogMonitorWorker.StartMonitoring | steamDL_form.py:30-62 | appends exactly `Run` to the emitted signals; with the file present `_running` ends set exactly while still polling or after an exception, and without it `_running` is untouched |
| Monitor.LogMonitorWorker.FollowLog | steamDL_form.py:39-60 | the loop emits the exit events of `Poll`, reports an exception exactly when `Poll` fails, and clears `_running` exactly on a stop or a match |
| Schedule.ParseSchedule | steamDL_form.py:145-158 | an accepted time has hour in [0, 23] and minute in [0, 59]; the "No Time" warning comes exactly for blank text |
| Schedule.ColonCountMustBeOne | steamDL_form.py:152-154 | text that is not blank and has no colon or several is refused with the format warning |
| Schedule.ParseScheduleSound | steamDL_form.py:146-158 | accepted text is, once stripped, two `int()`-readable colon-free parts around one colon, whose values are the hour and minute |
| Schedule.ParseScheduleComplete | steamDL_form.py:146-158 | stripped text of that shape is accepted exactly when both values are in range, and refused with the format warning otherwise |
| Schedule.ParseIntOfNumeral | steamDL_form.py:155-156 | a field made of digits is read as its decimal value when it has at most 4300 digits, and refused otherwise |
| Schedule.ParseScheduleUnreadable | steamDL_form.py:152-164 | stripped text of two colon-free parts around one colon is refused with the format warning when `int()` cannot read either part |
| Schedule.NumeralTime | steamDL_form.py:146-158 | two digit runs around a colon, padded or not, with surrounding whitespace, give that time when each has at most 4300 digits and the values are in range, and are refused with the format warning otherwise |
| Schedule.OverlongHourRefused | steamDL_form.py:155-164 | 4301 zeros followed by "9:5" is refused with the format warning, although the hour's value is 9 |
| Schedule.UnpaddedAccepted | steamDL_form.py:152-158 | "9:5" is accepted as 09:05 |
| Schedule.PaddedAccepted | steamDL_form.py:152-158 | "09:05" is accepted as 09:05 |
| Schedule.HourOutOfRange | steamDL_form.py:157-158 | "24:00" is refused |
| Schedule.MinuteOutOfRange | steamDL_form.py:157-158 | "12:60" is refused |
| Schedule.NoColonRefused | steamDL_form.py:152-154 | "abc" is refused |
| Schedule.InnerSeparatorRefused | steamDL_form.py:146-158 | "9\x1c:5" is refused with the format warning, since `strip()` keeps the inner separator and `int()` does not skip it |
| Schedule.FormatClock | steamDL_form.py:162 | the `HH:MM` text is five characters: two digits, a colon, two digits |
| Schedule.ScheduledMessage | steamDL_form.py:162 | the confirmation message shows the time as `HH:MM` |
| Schedule.FormatClockRoundTrip | steamDL_form.py:162 | the logged `HH:MM` is five characters and reads back as the scheduled time |
| Schedule.Tick | steamDL_form.py:166-179 | a tick fires exactly when the armed time is the current hour and minute; firing clears the arm, and otherwise the arm stays as it was |
| Schedule.FireCount | steamDL_form.py:166-179 | ticks over any clock readings start at most one download, and none with nothing armed |
| Schedule.FiresOncePerArm | steamDL_form.py:174-179 | one arm starts the download once if the clock is read in its minute, never otherwise |
| Schedule.LaunchCommand | steamDL_form.py:182-187 | the command is refused exactly when the stripped AppID is empty |
| Schedule.LaunchCommandNamesAppId | steamDL_form.py:187 | the command's URI names exactly the stripped AppID |
| Schedule.LaunchCommandIgnoresSpaces | steamDL_form.py:182 | whitespace around the AppID does not change the command |
| TitleColour.NextColor | steamDL_form.py:129-140 | one call changes at most one channel, by 0 or by the step either way, and leaves a colour off the hexagon's edge as it is |
| TitleColour.Hue | steamDL_form.py:129-140 | each position on the hexagon's edge has every channel in [0, 255], one at 255 and one at 0 |
| TitleColour.StepOnHexagon | steamDL_form.py:129-140 | from any colour on the hexagon, a step stays on it and changes exactly one channel by exactly 1 |
| TitleColour.HueStep | steamDL_form.py:129-140 | a step moves one position along the hexagon, and from the last position back to red |
| TitleColour.WalkWithinLap | steamDL_form.py:84-140 | within the first 1530 steps from red the colour is at hexagon position `n` |
| TitleColour.LapReturns | steamDL_form.py:84-140 | 1530 steps from red return to red |
| TitleColour.Periodic | steamDL_form.py:84-140 | the colour sequence from red has period 1530 |
| TitleColour.WalkIsHue | steamDL_form.py:84-140 | after `n` steps from red the colour is at hexagon position `n mod 1530` |
| TitleColour.HueInjective | steamDL_form.py:129-140 | distinct positions are distinct colours |
| TitleColour.ReturnsToStart | steamDL_form.py:84-140 | the colour is red again exactly after whole laps of 1530 steps |
| TitleColour.WalkInvariants | steamDL_form.py:84-140 | every colour reached from red has channels in [0, 255], one at 255 and one at 0, and each step changes exactly one channel by 1 |
| Window.TimeWarning | steamDL_form.py:147-164 | "No Time" exactly for the blank-text refusal, "Format Error" for every other refusal, never the AppID warning |
| Window.MainWindow.constructor | steamDL_form.py:84-126 | red title colour with step 1, AppID "632810", empty time text, box unticked, nothing armed, timer stopped |
| Window.MainWindow.AnimateTitleColor | steamDL_form.py:128-140 | the colour takes one guarded step and stays on the walk from red |
| Window.MainWindow.ArmedTimeReadsBack | steamDL_form.py:160-162 | an armed time is logged as `HH:MM`, and that text is accepted again as the same time |
| Window.MainWindow.ScheduleDownload | steamDL_form.py:145-164 | an accepted time is armed, the timer started and `HH:MM` logged; a refused time gives its warning and leaves the armed time, timer and log as they were |
| Window.MainWindow.StartDownload | steamDL_form.py:181-190 | a blank AppID gives the "No AppID" warning and runs nothing; otherwise the Steam command is run and logged |
| Window.MainWindow.CheckScheduledDownload | steamDL_form.py:166-179 | outside the armed minute nothing changes; in it the timer stops, the download is started or refused, the arrival is logged and the arm cleared, even for a blank AppID |
| Window.MainWindow.OnKeywordFound | steamDL_form.py:214-218 | the finish is logged, and the shutdown is announced and run exactly when the box is ticked |

## Left out

- Qt widgets, layouts, button enabling, `QMessageBox` texts and style sheets are not modelled. A warning dialog is recorded only by its kind, and the title colour only as `(r, g, b)`.
- `threading.Thread` and real concurrency are not modelled. A `stop()` from the window thread is a `StopRequest` step between two reads, which is the interleaving the polling loop can observe.
- Overlapping workers from repeated "Start Monitoring" clicks are not modelled. They are a matter of concurrency and resource lifetime.
- The file is not modelled: no `open`, `seek(0, 2)`, UTF-8 decoding with `errors='ignore'`, or `time.sleep`. The lines after the seek are the `Read` steps, and the existence check is the `logExists` parameter.
- Monitor.LogMonitorWorker.StartMonitoring: `steps` is a finite prefix of the run. When it ends with no decision, the run counts as still polling and `stopped_signal` has not yet been emitted.
- `datetime.now()` is not called. The tick takes the current hour and minute as a parameter.
- `QTimer` periods (2 ms colour, 2 s schedule) are timing, not logic. Timer starts and stops are kept as the flag `scheduleTimerActive`.
- `os.system` is not run. The commands it would run are recorded in `systemCalls`.
- `MainWindow.start_monitoring`, `stop_monitoring`, `on_log_message` and `on_monitor_stopped` are not modelled. They create the worker and its thread, forward its signals to the log area, and toggle buttons.
- Text.Lower: only ASCII capitals are lower-cased. Unicode case mapping is not modelled.
- Text.IsSpace: only the ASCII whitespace of `strip()` is recognised (space, tab to carriage return, and 0x1C to 0x1F). Unicode whitespace is not.
- Text.IsIntSpace: only the ASCII whitespace of `int()` is recognised (space, tab to carriage return). Unicode whitespace is not.
- Text.ParseInt: accepts surrounding whitespace, an optional sign and one to 4300 ASCII digits. Python's `int()` also accepts underscores between digits and non-ASCII digits, and these are not modelled. The 4300-digit limit is CPython's default (`MaxIntDigits`); changing it through `sys.set_int_max_str_digits` or `PYTHONINTMAXSTRDIGITS`, and Python versions without the limit, are not modelled.
- TitleColour: the lap and hexagon properties are proved for the step of 1 that the window uses. `NextColor` accepts any step, but other steps are not analysed.
