/**
 * The state of the main window that its handlers update in place: the
 * title colour, the AppID and time texts, the shutdown checkbox, the armed
 * schedule, and what the window shows or runs. Lines appended to the log
 * area, warning dialogs and `os.system` commands are recorded as sequences.
 */
module Window {
  import opened Options
  import opened Text
  import opened Schedule
  import opened TitleColour

  /** The warning dialogs the scheduler and the launcher can raise. */
  datatype Warning = NoTimeWarning | FormatWarning | NoAppIdWarning

  /** The dialog a refused time text raises: "No Time" for blank text, "Format Error" otherwise. */
  function TimeWarning(e: TimeError): (w: Warning)
    ensures w == NoTimeWarning <==> e == NoTime
    ensures w != NoAppIdWarning
  {
    match e
    case NoTime => NoTimeWarning
    case BadFormat => FormatWarning
  }

  const DefaultAppId: string := "632810"

  const FoundNotice: string := "Keyword found => download likely finished."

  const ShutdownNotice: string := "Preparing to shutdown the PC..."

  /** The command `on_keyword_found` runs to shut the PC down. */
  const ShutdownCommand: string := "shutdown /s /f /t 0"

  function ExecutingMessage(command: string): string {
    "Executing: " + command
  }

  class MainWindow {
    var r: int
    var g: int
    var b: int
    var colorStep: int
    /** How many times the colour timer has fired. */
    ghost var colourTicks: nat

    var appIdText: string
    var timeText: string
    var shutdownChecked: bool
    var scheduledTime: Option<ClockTime>
    var scheduleTimerActive: bool

    var logLines: seq<string>
    var warnings: seq<Warning>
    var systemCalls: seq<string>

    /** The title colour is where the hexagon walk from red is after `colourTicks` steps. */
    ghost predicate ColourValid()
      reads this`r, this`g, this`b, this`colorStep, this`colourTicks
    {
      colorStep == 1 && Rgb(r, g, b) == Walk(Start, colourTicks)
    }

    /** Only a valid clock time is ever armed. */
    ghost predicate ScheduleValid()
      reads this`scheduledTime
    {
      scheduledTime.Some? ==> IsValidClock(scheduledTime.value)
    }

    /** An armed time is shown as `HH:MM` in its confirmation, and that text reads back as the armed time. */
    lemma ArmedTimeReadsBack()
      requires ScheduleValid()
      ensures scheduledTime.Some? ==>
        Contains(ScheduledMessage(scheduledTime.value), FormatClock(scheduledTime.value))
        && ParseSchedule(FormatClock(scheduledTime.value)) == Success(scheduledTime.value)
    {
      if scheduledTime.Some? {
        FormatClockRoundTrip(scheduledTime.value);
      }
    }

    constructor ()
      ensures Rgb(r, g, b) == Start && colorStep == 1 && colourTicks == 0
      ensures appIdText == DefaultAppId && timeText == [] && !shutdownChecked
      ensures scheduledTime == None && !scheduleTimerActive
      ensures logLines == [] && warnings == [] && systemCalls == []
      ensures ColourValid() && ScheduleValid()
    {
      r, g, b := 255, 0, 0;
      colorStep := 1;
      colourTicks := 0;
      appIdText := DefaultAppId;
      timeText := [];
      shutdownChecked := false;
      scheduledTime := None;
      scheduleTimerActive := false;
      logLines := [];
      warnings := [];
      systemCalls := [];
    }

    /**
     * One colour-timer tick. The colour moves by one guarded step and, from
     * a valid state, stays on the hexagon walk from red.
     */
    method AnimateTitleColor()
      modifies this`r, this`g, this`b, this`colourTicks
      ensures Rgb(r, g, b) == NextColor(old(Rgb(r, g, b)), colorStep)
      ensures colourTicks == old(colourTicks) + 1
      ensures old(ColourValid()) ==> ColourValid()
    {
      if r == 255 && g < 255 && b == 0 {
        g := g + colorStep;
      } else if g == 255 && r > 0 && b == 0 {
        r := r - colorStep;
      } else if g == 255 && b < 255 && r == 0 {
        b := b + colorStep;
      } else if b == 255 && g > 0 && r == 0 {
        g := g - colorStep;
      } else if b == 255 && r < 255 && g == 0 {
        r := r + colorStep;
      } else if r == 255 && b > 0 && g == 0 {
        b := b - colorStep;
      }
      colourTicks := colourTicks + 1;
    }

    /**
     * The "Schedule Download" button. Accepted time is armed, the schedule
     * timer started and the zero-padded time logged; refused time raises
     * its warning and leaves the schedule as it was.
     */
    method ScheduleDownload()
      modifies this`scheduledTime, this`scheduleTimerActive, this`logLines, this`warnings
      ensures match ParseSchedule(timeText)
        case Success(t) =>
          scheduledTime == Some(t) && scheduleTimerActive
          && logLines == old(logLines) + [ScheduledMessage(t)] && warnings == old(warnings)
        case Failure(e) =>
          scheduledTime == old(scheduledTime) && scheduleTimerActive == old(scheduleTimerActive)
          && logLines == old(logLines) && warnings == old(warnings) + [TimeWarning(e)]
      ensures old(ScheduleValid()) ==> ScheduleValid()
    {
      match ParseSchedule(timeText)
      case Failure(e) =>
        warnings := warnings + [TimeWarning(e)];
      case Success(t) =>
        scheduledTime := Some(t);
        scheduleTimerActive := true;
        logLines := logLines + [ScheduledMessage(t)];
    }

    /**
     * Launching the game's download: refused with a warning when the
     * stripped AppID is empty, otherwise the Steam command is run and logged.
     */
    method StartDownload()
      modifies this`logLines, this`warnings, this`systemCalls
      ensures match LaunchCommand(appIdText)
        case None =>
          warnings == old(warnings) + [NoAppIdWarning]
          && logLines == old(logLines) && systemCalls == old(systemCalls)
        case Some(command) =>
          systemCalls == old(systemCalls) + [command]
          && logLines == old(logLines) + [ExecutingMessage(command)] && warnings == old(warnings)
    {
      match LaunchCommand(appIdText)
      case None =>
        warnings := warnings + [NoAppIdWarning];
      case Some(command) =>
        systemCalls := systemCalls + [command];
        logLines := logLines + [ExecutingMessage(command)];
    }

    /**
     * One schedule-timer tick at clock reading `now`. Outside the armed
     * minute nothing changes. In it the timer stops, the download is
     * started (or refused for a blank AppID), the arrival is logged and the
     * arm is cleared, so a later tick cannot start it again.
     */
    method CheckScheduledDownload(now: ClockTime)
      modifies this`scheduledTime, this`scheduleTimerActive, this`logLines, this`warnings, this`systemCalls
      ensures scheduledTime == Tick(old(scheduledTime), now).armed
      ensures !Tick(old(scheduledTime), now).fires ==>
        scheduleTimerActive == old(scheduleTimerActive) && logLines == old(logLines)
        && warnings == old(warnings) && systemCalls == old(systemCalls)
      ensures Tick(old(scheduledTime), now).fires ==>
        !scheduleTimerActive &&
        match LaunchCommand(appIdText)
        case None =>
          warnings == old(warnings) + [NoAppIdWarning]
          && logLines == old(logLines) + [ReachedMessage] && systemCalls == old(systemCalls)
        case Some(command) =>
          systemCalls == old(systemCalls) + [command] && warnings == old(warnings)
          && logLines == old(logLines) + [ExecutingMessage(command), ReachedMessage]
      ensures old(ScheduleValid()) ==> ScheduleValid()
    {
      if scheduledTime.None? {
        return;
      }
      if now.hour == scheduledTime.value.hour && now.minute == scheduledTime.value.minute {
        scheduleTimerActive := false;
        StartDownload();
        logLines := logLines + [ReachedMessage];
        scheduledTime := None;
      }
    }

    /**
     * The monitor's keyword signal: the finish is logged, and only when the
     * shutdown box is ticked is the shutdown announced and its command run.
     */
    method OnKeywordFound()
      modifies this`logLines, this`systemCalls
      ensures logLines == old(logLines) + [FoundNotice] + (if shutdownChecked then [ShutdownNotice] else [])
      ensures systemCalls == old(systemCalls) + (if shutdownChecked then [ShutdownCommand] else [])
    {
      logLines := logLines + [FoundNotice];
      if shutdownChecked {
        logLines := logLines + [ShutdownNotice];
        systemCalls := systemCalls + [ShutdownCommand];
      }
    }
  }
}
