/**
 * The download scheduler of the main window: reading the "HH:MM" text the
 * user typed, the one-shot wall-clock check made on every timer tick, and
 * the Steam command started when the scheduled minute is reached.
 */
module Schedule {
  import opened Options
  import opened Text

  /** An (hour, minute) pair, as stored in `scheduled_time` and read from the clock. */
  datatype ClockTime = ClockTime(hour: int, minute: int)

  predicate IsValidClock(t: ClockTime) {
    0 <= t.hour < 24 && 0 <= t.minute < 60
  }

  /** Why a time text is refused: the "No Time" and the "Format Error" warnings. */
  datatype TimeError = NoTime | BadFormat

  // ------------------------------------------------------------ HH:MM text

  /**
   * The checks of `schedule_download`: strip, refuse empty text, split on
   * ':', demand exactly two parts, read each with `int()`, and demand an
   * hour in [0, 23] and a minute in [0, 59]. An accepted time is valid; the
   * "No Time" warning is given exactly for blank text.
   */
  function ParseSchedule(text: string): (r: Result<ClockTime, TimeError>)
    ensures r.Success? ==> IsValidClock(r.value)
    ensures r == Failure(NoTime) <==> Strip(text) == []
  {
    var t := Strip(text);
    if t == [] then Failure(NoTime)
    else
      var parts := Split(t, ':');
      if |parts| != 2 then Failure(BadFormat)
      else
        var hh, mm := ParseInt(parts[0]), ParseInt(parts[1]);
        if hh.Some? && mm.Some? && 0 <= hh.value < 24 && 0 <= mm.value < 60 then
          Success(ClockTime(hh.value, mm.value))
        else Failure(BadFormat)
  }

  /** `f"{hh:02d}:{mm:02d}"`, as the confirmation message shows a scheduled time. */
  function FormatClock(t: ClockTime): (s: string)
    requires IsValidClock(t)
    ensures |s| == 5 && s[2] == ':'
    ensures forall k :: 0 <= k < 5 && k != 2 ==> IsDigit(s[k])
  {
    ZeroPad2(t.hour) + ":" + ZeroPad2(t.minute)
  }

  /** The confirmation logged for an armed time, which shows it as `HH:MM`. */
  function ScheduledMessage(t: ClockTime): (m: string)
    requires IsValidClock(t)
    ensures Contains(m, FormatClock(t))
  {
    ContainsInfix("Download scheduled at ", FormatClock(t), " ...");
    "Download scheduled at " + FormatClock(t) + " ..."
  }

  /** Text with no colon, or more than one, is refused unless it is blank. */
  lemma ColonCountMustBeOne(text: string)
    requires Strip(text) != [] && multiset(Strip(text))[':'] != 1
    ensures ParseSchedule(text) == Failure(BadFormat)
  {
    CountIsMultiplicity(Strip(text), ':');
  }

  /**
   * Accepted text is, once stripped, two `int()`-readable parts joined by a
   * single colon, whose values are the hour and the minute.
   */
  lemma ParseScheduleSound(text: string)
    requires ParseSchedule(text).Success?
    ensures var t := ParseSchedule(text).value;
      exists a, b :: Strip(text) == a + ":" + b && ':' !in a && ':' !in b
        && ParseInt(a) == Some(t.hour) && ParseInt(b) == Some(t.minute)
  {
    var s := Strip(text);
    var parts := Split(s, ':');
    JoinSplit(s, ':');
    assert parts[1..] == [parts[1]];
    assert s == parts[0] + ":" + parts[1];
  }

  /**
   * Conversely, stripped text made of two `int()`-readable parts around a
   * single colon is accepted exactly when the values are in range.
   */
  lemma ParseScheduleComplete(text: string, a: string, b: string, hh: int, mm: int)
    requires Strip(text) == a + ":" + b && ':' !in a && ':' !in b
    requires ParseInt(a) == Some(hh) && ParseInt(b) == Some(mm)
    ensures ParseSchedule(text) ==
      if 0 <= hh < 24 && 0 <= mm < 60 then Success(ClockTime(hh, mm)) else Failure(BadFormat)
  {
    var parts := [a, b];
    assert parts[1..] == [b];
    assert Join(parts, ':') == a + ":" + b;
    SplitJoin(parts, ':');
  }

  /**
   * Stripped text of two colon-free parts around a single colon is refused
   * with the format warning when `int()` cannot read one of the parts.
   */
  lemma ParseScheduleUnreadable(text: string, a: string, b: string)
    requires Strip(text) == a + ":" + b && ':' !in a && ':' !in b
    requires ParseInt(a).None? || ParseInt(b).None?
    ensures ParseSchedule(text) == Failure(BadFormat)
  {
    var parts := [a, b];
    assert parts[1..] == [b];
    assert Join(parts, ':') == a + ":" + b;
    SplitJoin(parts, ':');
  }

  lemma NumeralNoColon(ds: string)
    requires IsNumeral(ds)
    ensures ':' !in ds
  {
  }

  /** Whitespace around "a:b" for numerals a and b is what `strip()` removes. */
  lemma StripNumeralTime(p: string, a: string, b: string, q: string)
    requires AllSpace(p) && AllSpace(q) && IsNumeral(a) && IsNumeral(b)
    ensures Strip(p + a + ":" + b + q) == a + ":" + b
  {
    var t := a + ":" + b;
    assert p + a + ":" + b + q == p + t + q;
    assert t[0] == a[0] && t[|t| - 1] == b[|b| - 1];
    StripUnique(p, t, q);
  }

  /** A numeral is read by `int()` as its decimal value, unless it has more than `MaxIntDigits` digits. */
  lemma ParseIntOfNumeral(ds: string)
    requires IsNumeral(ds)
    ensures ParseInt(ds) == if |ds| <= MaxIntDigits then Some(DigitsValue(ds)) else None
  {
    ParseIntNumeral([], ds, []);
    assert [] + ds + [] == ds;
  }

  /**
   * Time written as two numerals, padded or not and with any surrounding
   * whitespace, is accepted exactly when `int()` reads both (at most
   * `MaxIntDigits` digits each), the hour is below 24 and the minute below
   * 60: "9:5" and "09:05" both give (9, 5); "24:00" and "12:60" are refused.
   */
  lemma NumeralTime(p: string, a: string, b: string, q: string)
    requires AllSpace(p) && AllSpace(q) && IsNumeral(a) && IsNumeral(b)
    ensures ParseSchedule(p + a + ":" + b + q) ==
      if |a| <= MaxIntDigits && |b| <= MaxIntDigits && DigitsValue(a) < 24 && DigitsValue(b) < 60
      then Success(ClockTime(DigitsValue(a), DigitsValue(b)))
      else Failure(BadFormat)
  {
    var text := p + a + ":" + b + q;
    StripNumeralTime(p, a, b, q);
    ParseIntOfNumeral(a);
    ParseIntOfNumeral(b);
    NumeralNoColon(a);
    NumeralNoColon(b);
    if |a| <= MaxIntDigits && |b| <= MaxIntDigits {
      ParseScheduleComplete(text, a, b, DigitsValue(a), DigitsValue(b));
    } else {
      ParseScheduleUnreadable(text, a, b);
    }
  }

  /**
   * An hour field of 4302 digits, all but the last a leading zero, is refused
   * although its value is 9: `int()` reads at most `MaxIntDigits` digits.
   */
  lemma OverlongHourRefused()
    ensures ParseSchedule(seq(4301, k => '0') + "9:5") == Failure(BadFormat)
  {
    var a := seq(4301, k => '0') + "9";
    assert IsNumeral(a) by {
      forall k | 0 <= k < |a| ensures IsDigit(a[k]) {
      }
    }
    assert seq(4301, k => '0') + "9:5" == [] + a + ":" + "5" + [];
    NumeralTime([], a, "5", []);
  }

  /** Unpadded fields are accepted, as `int()` reads them: "9:5" is 09:05. */
  lemma UnpaddedAccepted()
    ensures ParseSchedule("9:5") == Success(ClockTime(9, 5))
  {
    var h, m := "9", "5";
    assert IsNumeral(h) && IsNumeral(m) && DigitsValue(h) == 9 && DigitsValue(m) == 5;
    assert "9:5" == [] + h + ":" + m + [];
    NumeralTime([], h, m, []);
  }

  /** The zero-padded form of the same time: "09:05" is 09:05. */
  lemma PaddedAccepted()
    ensures ParseSchedule("09:05") == Success(ClockTime(9, 5))
  {
    var h, m := "09", "05";
    assert IsNumeral(h) && IsNumeral(m) && DigitsValue(h) == 9 && DigitsValue(m) == 5;
    assert "09:05" == [] + h + ":" + m + [];
    NumeralTime([], h, m, []);
  }

  /** Hour 24 is out of range: "24:00" is refused. */
  lemma HourOutOfRange()
    ensures ParseSchedule("24:00") == Failure(BadFormat)
  {
    var h, m := "24", "00";
    assert IsNumeral(h) && IsNumeral(m) && DigitsValue(h) == 24;
    assert "24:00" == [] + h + ":" + m + [];
    NumeralTime([], h, m, []);
  }

  /** Minute 60 is out of range: "12:60" is refused. */
  lemma MinuteOutOfRange()
    ensures ParseSchedule("12:60") == Failure(BadFormat)
  {
    var h, m := "12", "60";
    assert IsNumeral(h) && IsNumeral(m) && DigitsValue(m) == 60;
    assert "12:60" == [] + h + ":" + m + [];
    NumeralTime([], h, m, []);
  }

  /** Text without a colon is refused: "abc". */
  lemma NoColonRefused()
    ensures ParseSchedule("abc") == Failure(BadFormat)
  {
    var t := "abc";
    StripTrimmed(t);
    assert t[0] == 'a' && t[1] == 'b' && t[2] == 'c';
    assert multiset(t)[':'] == 0;
    ColonCountMustBeOne(t);
  }

  /**
   * The separator 0x1C inside a field is refused: `strip()` keeps it, as it
   * is not at an end, and `int()` does not skip it.
   */
  lemma InnerSeparatorRefused()
    ensures ParseSchedule(['9', 28 as char, ':', '5']) == Failure(BadFormat)
  {
    var a, b := ['9', 28 as char], ['5'];
    var text := ['9', 28 as char, ':', '5'];
    StripTrimmed(text);
    assert Join([a, b], ':') == text;
    assert [a, b][1..] == [b];
    SplitJoin([a, b], ':');
    ParseIntRefusesSeparator();
  }

  /** The confirmation format reads back as the time it shows: five characters, "HH:MM". */
  lemma FormatClockRoundTrip(t: ClockTime)
    requires IsValidClock(t)
    ensures |FormatClock(t)| == 5
    ensures ParseSchedule(FormatClock(t)) == Success(t)
  {
    var a, b := ZeroPad2(t.hour), ZeroPad2(t.minute);
    ZeroPad2Value(t.hour);
    ZeroPad2Value(t.minute);
    assert FormatClock(t) == [] + a + ":" + b + [];
    NumeralTime([], a, b, []);
  }

  // ------------------------------------------------------------ the timer tick

  /** The outcome of one `check_scheduled_download`: whether it starts the download, and the new arm. */
  datatype TickResult = TickResult(fires: bool, armed: Option<ClockTime>)

  /**
   * One tick: with nothing scheduled or another minute on the clock nothing
   * changes; in the scheduled minute the download starts and the arm is
   * cleared.
   */
  function Tick(armed: Option<ClockTime>, now: ClockTime): (r: TickResult)
    ensures r.fires <==> armed == Some(now)
    ensures r.armed == if r.fires then None else armed
  {
    match armed
    case None => TickResult(false, None)
    case Some(target) =>
      if now.hour == target.hour && now.minute == target.minute then TickResult(true, None)
      else TickResult(false, armed)
  }

  /**
   * How many times the download starts over a series of clock readings: at
   * most once, and never with nothing armed.
   */
  function FireCount(armed: Option<ClockTime>, clock: seq<ClockTime>): (n: nat)
    ensures n <= 1
    ensures armed.None? ==> n == 0
    decreases |clock|
  {
    if clock == [] then 0
    else
      var r := Tick(armed, clock[0]);
      (if r.fires then 1 else 0) + FireCount(r.armed, clock[1..])
  }

  /**
   * One arm starts the download at most once: exactly once if the clock is
   * read during the scheduled minute, never if every reading misses it (a
   * clock that jumps over the minute never fires).
   */
  lemma {:induction false} FiresOncePerArm(target: ClockTime, clock: seq<ClockTime>)
    ensures FireCount(Some(target), clock) == if target in clock then 1 else 0
    decreases |clock|
  {
    if clock != [] {
      if clock[0] != target {
        FiresOncePerArm(target, clock[1..]);
        assert target in clock <==> target in clock[1..];
      }
    }
  }

  // ------------------------------------------------------------ starting the download

  const LaunchPrefix: string := "start steam://rungameid/"

  const ReachedMessage: string := "Scheduled time reached; started download."

  /**
   * `start_download`'s command for the AppID text: refused when the stripped
   * text is empty, otherwise the Steam run URI for the stripped AppID.
   */
  function LaunchCommand(appIdText: string): (r: Option<string>)
    ensures r.None? <==> Strip(appIdText) == []
  {
    var appId := Strip(appIdText);
    if appId == [] then None else Some(LaunchPrefix + appId)
  }

  /** The AppID a launch command names. */
  function AppIdOf(command: string): Option<string> {
    if LaunchPrefix <= command && |command| > |LaunchPrefix| then Some(command[|LaunchPrefix|..]) else None
  }

  /** A launch command names exactly the stripped AppID text it was made from. */
  lemma LaunchCommandNamesAppId(appIdText: string)
    requires LaunchCommand(appIdText).Some?
    ensures AppIdOf(LaunchCommand(appIdText).value) == Some(Strip(appIdText))
  {
    var c := LaunchCommand(appIdText).value;
    assert c[..|LaunchPrefix|] == LaunchPrefix;
    assert c[|LaunchPrefix|..] == Strip(appIdText);
  }

  /** Whitespace around the AppID does not change the command. */
  lemma LaunchCommandIgnoresSpaces(p: string, appId: string, q: string)
    requires AllSpace(p) && AllSpace(q)
    requires appId != [] ==> !IsSpace(appId[0]) && !IsSpace(appId[|appId| - 1])
    ensures LaunchCommand(p + appId + q) == LaunchCommand(appId)
  {
    StripUnique(p, appId, q);
    StripTrimmed(appId);
  }
}
