/**
 * The keyword-tail engine of `LogMonitorWorker`: it waits for the log file to
 * grow, lower-cases every new line and reports the first configured keyword
 * the line contains, then stops.
 *
 * The file, the sleeping and the other thread are abstracted as a sequence of
 * `Step`s: what each `readline()` call returned ("" when no new data had
 * arrived), a `stop()` call taking effect before the next `while` check, or an
 * exception raised while opening or reading the file.
 */
module Monitor {
  import opened Options
  import opened Text

  /** The monitored file (a constant of the program). */
  const LogPath: string := "C:\\Program Files (x86)\\Steam\\logs\\content_log.txt"

  /** The keywords the window starts its worker with. */
  const Keywords: seq<string> := ["finished update"]

  /** The `poll_interval` of `__init__` when none is given. */
  const DefaultPollInterval: int := 3

  /** What the worker emits: `log_signal(msg)`, `found_signal()`, `stopped_signal()`. */
  datatype Event = Log(message: string) | Found | Stopped

  /** One observation of the environment by the polling loop. */
  datatype Step =
    | Read(line: string)        // the result of one `readline()`; "" means no new data
    | StopRequest               // `stop()` was called since the last `while` check
    | Raise(message: string)    // opening or reading the file raised an exception

  /** How the polling loop left off after the steps it was given. */
  datatype Exit =
    | Polling                                   // still waiting for a matching line
    | StopRequested                             // left the loop because `_running` was cleared
    | KeywordFound(keyword: string, line: string)
    | Failed(message: string)                   // an exception ended the monitoring

  const StartMessage: string := "Starting log monitoring..."

  const NotFoundMessage: string := "[ERROR] Log file not found: " + LogPath

  /** The log message for a match: it names the keyword and shows the stripped line. */
  function FoundMessage(keyword: string, line: string): (m: string)
    ensures Contains(m, keyword) && Contains(m, Strip(line))
  {
    var head, tail := "Found keyword: '", "' in line:\n";
    ContainsInfix(head, keyword, tail + Strip(line));
    assert head + keyword + (tail + Strip(line)) == head + keyword + tail + Strip(line);
    ContainsInfix(head + keyword + tail, Strip(line), []);
    assert head + keyword + tail + Strip(line) + [] == head + keyword + tail + Strip(line);
    head + keyword + tail + Strip(line)
  }

  /** The log message for an exception: it shows the exception's text. */
  function ExceptionMessage(message: string): (m: string)
    ensures Contains(m, message)
  {
    ContainsInfix("[ERROR] Exception in monitoring: ", message, []);
    assert "[ERROR] Exception in monitoring: " + message + [] == "[ERROR] Exception in monitoring: " + message;
    "[ERROR] Exception in monitoring: " + message
  }

  /** The keyword list as the constructor stores it: every keyword lower-cased. */
  function LowerAll(keywords: seq<string>): (r: seq<string>)
    ensures |r| == |keywords|
    ensures forall k :: 0 <= k < |r| ==> r[k] == Lower(keywords[k])
  {
    seq(|keywords|, k requires 0 <= k < |keywords| => Lower(keywords[k]))
  }

  // ------------------------------------------------------------ keyword test

  /**
   * The index of the first keyword, at `from` or later, that occurs in `text`:
   * it occurs, and none before it (from `from` on) does.
   */
  function FirstMatchFrom(keywords: seq<string>, text: string, from: nat): (r: Option<nat>)
    requires from <= |keywords|
    ensures r.Some? ==> from <= r.value < |keywords| && Contains(text, keywords[r.value])
    ensures r.Some? ==> forall k :: from <= k < r.value ==> !Contains(text, keywords[k])
    ensures r.None? ==> forall k :: from <= k < |keywords| ==> !Contains(text, keywords[k])
    decreases |keywords| - from
  {
    if from == |keywords| then None
    else if Contains(text, keywords[from]) then Some(from)
    else FirstMatchFrom(keywords, text, from + 1)
  }

  /** The `for kw in self.keywords: if kw in lower_line` search. */
  function FirstMatch(keywords: seq<string>, text: string): (r: Option<nat>)
    ensures r.Some? ==> r.value < |keywords| && Contains(text, keywords[r.value])
    ensures r.Some? ==> forall k :: 0 <= k < r.value ==> !Contains(text, keywords[k])
    ensures r.None? ==> forall k :: 0 <= k < |keywords| ==> !Contains(text, keywords[k])
  {
    FirstMatchFrom(keywords, text, 0)
  }

  /** A line read from the file that makes the worker report a keyword: a non-empty line holding one. */
  predicate LineMatches(keywords: seq<string>, line: string)
    ensures LineMatches(keywords, line) <==>
      line != "" && exists k :: 0 <= k < |keywords| && Contains(Lower(line), keywords[k])
  {
    line != "" && FirstMatch(keywords, Lower(line)).Some?
  }

  /**
   * A line matches exactly when it is non-empty and one of the keywords
   * occurs somewhere in its lower-cased text.
   */
  lemma LineMatchesIff(keywords: seq<string>, line: string)
    ensures LineMatches(keywords, line) <==>
      line != "" && exists k, i :: 0 <= k < |keywords| && OccursAt(Lower(line), keywords[k], i)
  {
    var text := Lower(line);
    if LineMatches(keywords, line) {
      var k := FirstMatch(keywords, text).value;
      ContainsIff(text, keywords[k]);
      var i :| OccursAt(text, keywords[k], i);
      assert 0 <= k < |keywords| && OccursAt(text, keywords[k], i);
      assert line != "";
      assert exists k, i :: 0 <= k < |keywords| && OccursAt(Lower(line), keywords[k], i);
    } else if line != "" {
      forall k, i | 0 <= k < |keywords| ensures !OccursAt(text, keywords[k], i) {
        ContainsIff(text, keywords[k]);
      }
    }
  }

  // ------------------------------------------------------------ the polling loop

  /** A step after which the loop goes on polling: a line that matches no keyword, or no data. */
  ghost predicate Quiet(keywords: seq<string>, step: Step) {
    step.Read? && !LineMatches(keywords, step.line)
  }

  /**
   * What one step decides: a stop request or an exception ends the loop, a
   * matching line reports the first keyword, in list order, that it contains;
   * `Polling` means the loop goes on.
   */
  function Decide(keywords: seq<string>, step: Step): (e: Exit)
    ensures e.Polling? <==> Quiet(keywords, step)
  {
    match step
    case StopRequest => StopRequested
    case Raise(message) => Failed(message)
    case Read(line) =>
      if LineMatches(keywords, line) then KeywordFound(keywords[FirstMatch(keywords, Lower(line)).value], line)
      else Polling
  }

  /**
   * Where the `while self._running` loop ends, given the steps it observes: at
   * the first step that is not quiet.
   */
  function Poll(keywords: seq<string>, steps: seq<Step>): (e: Exit)
    ensures e.Polling? <==> forall k :: 0 <= k < |steps| ==> Quiet(keywords, steps[k])
    ensures e.StopRequested? ==> StopRequest in steps
    ensures e.Failed? ==> Raise(e.message) in steps
    ensures e.KeywordFound? ==> Read(e.line) in steps && LineMatches(keywords, e.line)
    ensures e.KeywordFound? ==> e.keyword == keywords[FirstMatch(keywords, Lower(e.line)).value]
    decreases |steps|
  {
    if steps == [] then Polling
    else if Decide(keywords, steps[0]).Polling? then
      var e := Poll(keywords, steps[1..]);
      assert forall k :: 1 <= k < |steps| ==> steps[k] == steps[1..][k - 1];
      e
    else Decide(keywords, steps[0])
  }

  /** The events a loop exit produces before the final `stopped_signal`. */
  function ExitEvents(e: Exit): seq<Event> {
    match e
    case KeywordFound(keyword, line) => [Log(FoundMessage(keyword, line)), Found]
    case Failed(message) => [Log(ExceptionMessage(message))]
    case _ => []
  }

  /** Whether the run has finished after the given steps. */
  ghost predicate Terminates(keywords: seq<string>, logExists: bool, steps: seq<Step>) {
    !logExists || !Poll(keywords, steps).Polling?
  }

  /** Everything `start_monitoring` emits, given whether the file exists and the steps. */
  function Run(keywords: seq<string>, logExists: bool, steps: seq<Step>): (r: seq<Event>)
    ensures 1 <= |r| <= 4
    ensures r[0] == Log(if logExists then StartMessage else NotFoundMessage)
    ensures Found in r ==> logExists && Poll(keywords, steps).KeywordFound?
  {
    if !logExists then [Log(NotFoundMessage), Stopped]
    else
      var e := Poll(keywords, steps);
      [Log(StartMessage)] + ExitEvents(e) + (if e.Polling? then [] else [Stopped])
  }

  // ------------------------------------------------------------ properties

  /** One turn of the loop: the step at `i` either decides the outcome or is passed over. */
  lemma PollAt(keywords: seq<string>, steps: seq<Step>, i: nat)
    requires i < |steps|
    ensures Poll(keywords, steps[i..]) ==
      if Decide(keywords, steps[i]).Polling? then Poll(keywords, steps[i + 1..]) else Decide(keywords, steps[i])
  {
    assert steps[i..][0] == steps[i];
    assert steps[i..][1..] == steps[i + 1..];
  }

  /** Lines that match nothing, and empty reads, leave no trace: the loop carries on after them. */
  lemma {:induction false} PollQuietPrefix(keywords: seq<string>, steps: seq<Step>, n: nat)
    requires n <= |steps|
    requires forall j :: 0 <= j < n ==> Quiet(keywords, steps[j])
    ensures Poll(keywords, steps) == Poll(keywords, steps[n..])
    decreases n
  {
    if n > 0 {
      assert Quiet(keywords, steps[0]);
      PollQuietPrefix(keywords, steps[1..], n - 1);
      assert steps[1..][n - 1..] == steps[n..];
    }
  }

  /** Once the loop has ended, nothing observed later changes the outcome. */
  lemma {:induction false} PollAfterExit(keywords: seq<string>, pre: seq<Step>, post: seq<Step>)
    requires !Poll(keywords, pre).Polling?
    ensures Poll(keywords, pre + post) == Poll(keywords, pre)
    decreases |pre|
  {
    assert pre != [];
    assert (pre + post)[0] == pre[0];
    if Quiet(keywords, pre[0]) {
      assert (pre + post)[1..] == pre[1..] + post;
      PollAfterExit(keywords, pre[1..], post);
    }
  }

  /** While the loop is still polling, the next steps take over where the previous ones left off. */
  lemma PollResumes(keywords: seq<string>, pre: seq<Step>, post: seq<Step>)
    requires Poll(keywords, pre).Polling?
    ensures Poll(keywords, pre + post) == Poll(keywords, post)
  {
    var all := pre + post;
    forall j | 0 <= j < |pre| ensures Quiet(keywords, all[j]) {
      assert all[j] == pre[j];
    }
    PollQuietPrefix(keywords, all, |pre|);
    assert all[|pre|..] == post;
  }

  /** `stop()` is idempotent: a second request right after the first changes nothing. */
  lemma StopIdempotent(keywords: seq<string>, pre: seq<Step>, post: seq<Step>)
    ensures Poll(keywords, pre + [StopRequest, StopRequest] + post)
         == Poll(keywords, pre + [StopRequest] + post)
  {
    var twice := [StopRequest, StopRequest] + post;
    var once := [StopRequest] + post;
    assert pre + [StopRequest, StopRequest] + post == pre + twice;
    assert pre + [StopRequest] + post == pre + once;
    if Poll(keywords, pre).Polling? {
      PollResumes(keywords, pre, twice);
      PollResumes(keywords, pre, once);
    } else {
      PollAfterExit(keywords, pre, twice);
      PollAfterExit(keywords, pre, once);
    }
  }

  /** The matching line reached first, with only quiet steps before it. */
  ghost predicate MatchReachedAt(keywords: seq<string>, steps: seq<Step>, n: int) {
    && 0 <= n < |steps|
    && steps[n].Read?
    && LineMatches(keywords, steps[n].line)
    && forall j :: 0 <= j < n ==> Quiet(keywords, steps[j])
  }

  lemma {:induction false} PollFoundAt(keywords: seq<string>, steps: seq<Step>)
    requires Poll(keywords, steps).KeywordFound?
    ensures exists n :: MatchReachedAt(keywords, steps, n) && steps[n] == Read(Poll(keywords, steps).line)
    decreases |steps|
  {
    if !LineMatches(keywords, steps[0].line) {
      PollFoundAt(keywords, steps[1..]);
      var n :| MatchReachedAt(keywords, steps[1..], n) && steps[1..][n] == Read(Poll(keywords, steps).line);
      assert MatchReachedAt(keywords, steps, n + 1);
    } else {
      assert MatchReachedAt(keywords, steps, 0);
    }
  }

  /**
   * `found_signal` is emitted exactly when the file exists and a line matching
   * a keyword is read before any stop request or exception; the keyword
   * reported is the first one, in list order, that the line contains.
   */
  lemma FoundIff(keywords: seq<string>, logExists: bool, steps: seq<Step>)
    ensures Found in Run(keywords, logExists, steps) <==>
      logExists && exists n :: MatchReachedAt(keywords, steps, n)
    ensures (logExists && exists n :: MatchReachedAt(keywords, steps, n)) ==>
      exists n :: MatchReachedAt(keywords, steps, n) &&
        var line := steps[n].line;
        Log(FoundMessage(keywords[FirstMatch(keywords, Lower(line)).value], line)) in Run(keywords, logExists, steps)
  {
    if logExists && exists n :: MatchReachedAt(keywords, steps, n) {
      var n :| MatchReachedAt(keywords, steps, n);
      PollQuietPrefix(keywords, steps, n);
      var line := steps[n].line;
      assert Poll(keywords, steps) == KeywordFound(keywords[FirstMatch(keywords, Lower(line)).value], line);
    }
    if Found in Run(keywords, logExists, steps) {
      assert logExists && Poll(keywords, steps).KeywordFound?;
      PollFoundAt(keywords, steps);
    }
  }

  /** A stop request observed before any matching line rules out `found_signal`. */
  lemma {:induction false} StopPreventsFound(keywords: seq<string>, logExists: bool, steps: seq<Step>, s: nat)
    requires s < |steps| && steps[s] == StopRequest
    requires forall j :: 0 <= j < s ==> !(steps[j].Read? && LineMatches(keywords, steps[j].line))
    ensures Found !in Run(keywords, logExists, steps)
    decreases s
  {
    if s > 0 && Quiet(keywords, steps[0]) {
      StopPreventsFound(keywords, logExists, steps[1..], s - 1);
      PollQuietPrefix(keywords, steps, 1);
    }
  }

  /**
   * On every path that ends the run (missing file, stop request, match,
   * exception) `stopped_signal` is emitted exactly once, as the last event;
   * while the loop is still polling it has not been emitted.
   */
  lemma StoppedOnceAndLast(keywords: seq<string>, logExists: bool, steps: seq<Step>)
    ensures var r := Run(keywords, logExists, steps);
      && (Stopped in r <==> Terminates(keywords, logExists, steps))
      && multiset(r)[Stopped] <= 1
      && (Stopped in r ==> r[|r| - 1] == Stopped)
  {
  }

  /** `found_signal` comes at most once, immediately followed by `stopped_signal`. */
  lemma FoundOnceThenStopped(keywords: seq<string>, logExists: bool, steps: seq<Step>)
    ensures var r := Run(keywords, logExists, steps);
      && multiset(r)[Found] <= 1
      && (Found in r ==> |r| >= 2 && r[|r| - 2] == Found && r[|r| - 1] == Stopped)
  {
  }

  /** Without the log file the run reports the error and stops, whatever the file would have held. */
  lemma MissingFileNeverReads(keywords: seq<string>, steps: seq<Step>, other: seq<Step>)
    ensures Run(keywords, false, steps) == Run(keywords, false, other) == [Log(NotFoundMessage), Stopped]
  {
  }

  /** A lower-case keyword occurs in the lower-cased text of any line that holds it. */
  lemma KeywordInLine(keyword: string, before: string, after: string)
    requires forall j :: 0 <= j < |keyword| ==> !IsUpper(keyword[j])
    ensures Contains(Lower(before + keyword + after), keyword)
  {
    var line := before + keyword + after;
    var text := Lower(line);
    var at := |before|;
    forall j | 0 <= j < |keyword| ensures text[at + j] == keyword[j] {
      assert line[at + j] == keyword[j];
    }
    assert text[at..at + |keyword|] == keyword;
    assert OccursAt(text, keyword, at);
    ContainsIff(text, keyword);
  }

  /**
   * A single lower-case keyword: a line appended after the worker started
   * that holds it is reported together with the line, and the worker stops.
   */
  lemma KeywordLineFound(keyword: string, before: string, after: string)
    requires keyword != ""
    requires forall j :: 0 <= j < |keyword| ==> !IsUpper(keyword[j])
    ensures var line := before + keyword + after;
      Run([keyword], true, [Read(line)]) ==
        [Log(StartMessage), Log(FoundMessage(keyword, line)), Found, Stopped]
  {
    var line := before + keyword + after;
    KeywordInLine(keyword, before, after);
    assert FirstMatch([keyword], Lower(line)) == Some(0);
    assert line != "";
    assert Decide([keyword], Read(line)) == KeywordFound(keyword, line);
    assert Poll([keyword], [Read(line)]) == KeywordFound(keyword, line);
  }

  /** The program's keyword is written without capitals. */
  lemma KeywordHasNoCapitals()
    ensures forall j :: 0 <= j < |Keywords[0]| ==> !IsUpper(Keywords[0][j])
  {
  }

  /** The program's keyword list, as the worker stores it. */
  lemma KeywordsLowered()
    ensures LowerAll(Keywords) == Keywords
  {
    KeywordHasNoCapitals();
    LowerUnchanged(Keywords[0]);
  }

  /**
   * The program's own keyword: a Steam content-log line such as
   * "Update for AppID 632810 finished update." appended after the worker
   * started is reported together with the line, and the worker stops.
   */
  lemma FinishedUpdateScenario(before: string, after: string)
    ensures var line := before + "finished update" + after;
      Run(LowerAll(Keywords), true, [Read(line)]) ==
        [Log(StartMessage), Log(FoundMessage("finished update", line)), Found, Stopped]
  {
    KeywordsLowered();
    KeywordHasNoCapitals();
    KeywordLineFound(Keywords[0], before, after);
  }

  // ------------------------------------------------------------ the worker

  class LogMonitorWorker {
    /** The keywords, lower-cased once at construction. */
    const keywords: seq<string>
    const pollInterval: int
    /** The `_running` flag, cleared by `stop()` and by a match. */
    var running: bool
    /** Every signal emitted so far, in order. */
    var emitted: seq<Event>

    constructor (keywords: seq<string>, pollInterval: int)
      ensures this.keywords == LowerAll(keywords) && this.pollInterval == pollInterval
      ensures !running && emitted == []
    {
      this.keywords := LowerAll(keywords);
      this.pollInterval := pollInterval;
      running := false;
      emitted := [];
    }

    /** `__init__` called without `poll_interval`: the interval is the default of 3 seconds. */
    constructor WithDefaultInterval(keywords: seq<string>)
      ensures this.keywords == LowerAll(keywords) && pollInterval == DefaultPollInterval
      ensures !running && emitted == []
    {
      this.keywords := LowerAll(keywords);
      pollInterval := DefaultPollInterval;
      running := false;
      emitted := [];
    }

    /** Asks the loop to end at its next `while` check; calling it again changes nothing. */
    method Stop()
      modifies this`running
      ensures !running
    {
      running := false;
    }

    /**
     * The `for kw in self.keywords` loop: the index of the first keyword that
     * occurs in the lower-cased line, if any.
     */
    method ScanKeywords(lowerLine: string) returns (hit: Option<nat>)
      ensures hit == FirstMatch(keywords, lowerLine)
    {
      var j := 0;
      while j < |keywords|
        invariant 0 <= j <= |keywords|
        invariant FirstMatch(keywords, lowerLine) == FirstMatchFrom(keywords, lowerLine, j)
        decreases |keywords| - j
      {
        if Contains(lowerLine, keywords[j]) {
          return Some(j);
        }
        j := j + 1;
      }
      return None;
    }

    /**
     * `start_monitoring`: emits `Run(keywords, logExists, steps)`. The result
     * does not depend on `old(running)`: a `stop()` issued before the run sets
     * `_running` is overwritten. After an exception `_running` is left set, as
     * `start_monitoring` leaves it; when the steps end without a decision the
     * run is still polling and has not emitted `stopped_signal`.
     */
    method StartMonitoring(logExists: bool, steps: seq<Step>)
      modifies this`running, this`emitted
      ensures emitted == old(emitted) + Run(keywords, logExists, steps)
      ensures !logExists ==> running == old(running)
      ensures logExists ==> running == (Poll(keywords, steps).Polling? || Poll(keywords, steps).Failed?)
    {
      if !logExists {
        emitted := emitted + [Log(NotFoundMessage)];
        emitted := emitted + [Stopped];
        return;
      }
      running := true;
      emitted := emitted + [Log(StartMessage)];
      ghost var started := emitted;
      var failed := FollowLog(steps);
      ghost var exit := Poll(keywords, steps);
      ghost var tail := if exit.Polling? then [] else [Stopped];
      if !running || failed {
        emitted := emitted + [Stopped];
      }
      assert emitted == started + ExitEvents(exit) + tail;
      assert Run(keywords, logExists, steps) == [Log(StartMessage)] + ExitEvents(exit) + tail;
    }

    /**
     * The `try: with open(...)` block: follows the file until `_running` is
     * cleared (by `stop()` or by a match) or an exception is raised, which is
     * reported and ends the block with `_running` still set.
     */
    method FollowLog(steps: seq<Step>) returns (failed: bool)
      requires running
      modifies this`running, this`emitted
      ensures emitted == old(emitted) + ExitEvents(Poll(keywords, steps))
      ensures failed == Poll(keywords, steps).Failed?
      ensures running == (Poll(keywords, steps).Polling? || failed)
    {
      var i := 0;
      failed := false;
      while running
        invariant 0 <= i <= |steps|
        invariant emitted == old(emitted) && !failed
        invariant running ==> Poll(keywords, steps) == Poll(keywords, steps[i..])
        invariant !running ==> Poll(keywords, steps) == StopRequested
        decreases |steps| - i
      {
        if i == |steps| {
          // no further `readline()` results are given: the run is still polling
          break;
        }
        var step := steps[i];
        PollAt(keywords, steps, i);
        i := i + 1;
        match step {
          case StopRequest =>
            Stop();
          case Raise(message) =>
            emitted := emitted + [Log(ExceptionMessage(message))];
            failed := true;
            assert Poll(keywords, steps) == Failed(message);
            break;
          case Read(line) =>
            if line == "" {
              // `time.sleep(self.poll_interval)`, then poll again
              continue;
            }
            var hit := ScanKeywords(Lower(line));
            if hit.Some? {
              emitted := emitted + [Log(FoundMessage(keywords[hit.value], line))];
              emitted := emitted + [Found];
              running := false;
              assert Poll(keywords, steps) == KeywordFound(keywords[hit.value], line);
            }
            if !running {
              break;
            }
        }
      }
    }
  }
}
