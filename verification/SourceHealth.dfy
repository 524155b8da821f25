/**
 Retry backoff and log suppression for telemetry sources. Times are nanoseconds
 since the zero time, so 0 is the unset time.
 */
module SourceHealth {
  import opened Options

  const SECOND := 1_000_000_000
  const BACKOFF_STEPS := 5

  function BackoffSeconds(level: nat): (s: nat)
    requires level < BACKOFF_STEPS
  {
    [2, 5, 10, 30, 60][level]
  }

  datatype State = Starting | Healthy | Degraded | Unsupported

  datatype Entry = Entry(
    state: State, lastSuccessAt: int, lastErrorAt: int, lastError: string, errorCount: nat, consecutiveErrors: nat,
    eventsRead: nat, checkpoint: nat, quarantined: nat, encoding: string,
    nextAttemptAt: int, backoffSeconds: nat, backoffIndex: nat, loggedAtLevel: nat, suppressed: nat)

  const NEW_ENTRY := Entry(Starting, 0, 0, "", 0, 0, 0, 0, 0, "", 0, 0, 0, 0, 0)

  const MAXIMUM_ERROR_LENGTH := 512

  function Truncated(message: string): string {
    if |message| <= MAXIMUM_ERROR_LENGTH then message else message[..MAXIMUM_ERROR_LENGTH]
  }

  /** What a successful read says about the source. */
  datatype Diagnostics = Diagnostics(checkpoint: nat, quarantined: nat, encoding: string)

  /** What a failure tells the caller. */
  datatype Advice = Advice(shouldLog: bool, suppressed: nat, retryAt: int)

  predicate Due(e: Entry, now: int) {
    e.nextAttemptAt == 0 || e.nextAttemptAt <= now
  }

  function Level(e: Entry): nat {
    if e.backoffIndex >= BACKOFF_STEPS then BACKOFF_STEPS - 1 else e.backoffIndex
  }

  function Fail(e: Entry, now: int, error: Option<string>, unsupported: bool): (Entry, Advice) {
    var level := Level(e);
    var retryAt := now + BackoffSeconds(level) * SECOND;
    var logged := e.loggedAtLevel <= level;
    (e.(state := if unsupported then Unsupported else Degraded, lastErrorAt := now,
        lastError := if error.Some? then Truncated(error.value) else e.lastError,
        errorCount := e.errorCount + 1, consecutiveErrors := e.consecutiveErrors + 1,
        nextAttemptAt := retryAt, backoffSeconds := BackoffSeconds(level),
        backoffIndex := if e.backoffIndex < BACKOFF_STEPS - 1 then e.backoffIndex + 1 else e.backoffIndex,
        loggedAtLevel := if logged then level + 1 else e.loggedAtLevel,
        suppressed := if logged then 0 else e.suppressed + 1),
     Advice(logged, if logged then e.suppressed else 0, retryAt))
  }

  function Succeed(e: Entry, now: int, eventsRead: nat, d: Diagnostics): Entry {
    e.(state := Healthy, lastSuccessAt := now, consecutiveErrors := 0, lastError := "",
       checkpoint := d.checkpoint, quarantined := d.quarantined, encoding := d.encoding, nextAttemptAt := 0, backoffSeconds := 0,
       backoffIndex := 0, loggedAtLevel := 0, suppressed := 0, eventsRead := e.eventsRead + eventsRead)
  }

  function EntryOf(entries: map<string, Entry>, name: string): Entry {
    if name in entries then entries[name] else NEW_ENTRY
  }

  class SourceTracker {
    var entries: map<string, Entry>

    constructor ()
      ensures entries == map[]
    {
      entries := map[];
    }

    /** Looks up a source, declaring it when it is new. */
    method Find(name: string) returns (e: Entry)
      modifies this
      ensures e == EntryOf(old(entries), name) && entries == old(entries)[name := e]
    {
      if name !in entries {
        entries := entries[name := NEW_ENTRY];
      }
      e := entries[name];
    }

    method ShouldAttempt(name: string, now: int) returns (due: bool)
      modifies this
      ensures due == Due(EntryOf(old(entries), name), now)
      ensures entries == old(entries)[name := EntryOf(old(entries), name)]
    {
      var item := Find(name);
      if item.nextAttemptAt == 0 {
        return true;
      }
      return !(now < item.nextAttemptAt);
    }

    method RecordSuccess(name: string, now: int, eventsRead: nat, d: Diagnostics)
      modifies this
      ensures entries == old(entries)[name := Succeed(EntryOf(old(entries), name), now, eventsRead, d)]
    {
      var item := Find(name);
      item := item.(backoffIndex := 0, loggedAtLevel := 0, suppressed := 0);
      item := item.(state := Healthy, lastSuccessAt := now, consecutiveErrors := 0, lastError := "");
      item := item.(nextAttemptAt := 0, backoffSeconds := 0, eventsRead := item.eventsRead + eventsRead);
      item := item.(checkpoint := d.checkpoint, quarantined := d.quarantined, encoding := d.encoding);
      entries := entries[name := item];
    }

    method RecordFailure(name: string, now: int, error: Option<string>, unsupported: bool)
      returns (shouldLog: bool, suppressed: nat, retryAt: int)
      modifies this
      ensures var (e, advice) := Fail(EntryOf(old(entries), name), now, error, unsupported);
              entries == old(entries)[name := e] && Advice(shouldLog, suppressed, retryAt) == advice
    {
      var item := Find(name);
      item := item.(errorCount := item.errorCount + 1, consecutiveErrors := item.consecutiveErrors + 1, lastErrorAt := now);
      if error.Some? {
        item := item.(lastError := Truncated(error.value));
      }
      item := item.(state := if unsupported then Unsupported else Degraded);
      var level := item.backoffIndex;
      if level >= BACKOFF_STEPS {
        level := BACKOFF_STEPS - 1;
      }
      var delay := BackoffSeconds(level);
      item := item.(nextAttemptAt := now + delay * SECOND, backoffSeconds := delay);
      if item.backoffIndex < BACKOFF_STEPS - 1 {
        item := item.(backoffIndex := item.backoffIndex + 1);
      }
      if item.loggedAtLevel <= level {
        suppressed := item.suppressed;
        item := item.(loggedAtLevel := level + 1, suppressed := 0);
        entries := entries[name := item];
        return true, suppressed, item.nextAttemptAt;
      }
      item := item.(suppressed := item.suppressed + 1);
      entries := entries[name := item];
      return false, 0, item.nextAttemptAt;
    }
  }

  // ----- streaks of failures -----

  datatype Report =
    | Failure(name: string, time: int, error: Option<string>, unsupported: bool)
    | Success(name: string, time: int, events: nat, diagnostics: Diagnostics)

  /** The tracker after a list of reports. */
  function After(entries: map<string, Entry>, reports: seq<Report>): map<string, Entry> {
    if reports == [] then entries
    else
      var before, last := After(entries, reports[..|reports| - 1]), reports[|reports| - 1];
      match last
      case Failure(name, time, error, unsupported) => before[name := Fail(EntryOf(before, name), time, error, unsupported).0]
      case Success(name, time, events, d) => before[name := Succeed(EntryOf(before, name), time, events, d)]
  }

  /** The failures of one source, in order. */
  function FailuresOf(name: string, reports: seq<Report>): (r: seq<Report>)
    ensures forall f :: f in r ==> f.Failure? && f.name == name
  {
    if reports == [] then []
    else
      var last := reports[|reports| - 1];
      FailuresOf(name, reports[..|reports| - 1]) + (if last.Failure? && last.name == name then [last] else [])
  }

  /** Back at the first step of the schedule: a new source, or one that has just succeeded. */
  predicate Rested(e: Entry) {
    e.backoffIndex == 0 && e.loggedAtLevel == 0 && e.suppressed == 0
  }

  /** Every failure of the source was an attempt that was due. */
  ghost predicate OnlyWhenDue(entries: map<string, Entry>, name: string, reports: seq<Report>) {
    forall i :: 0 <= i < |reports| && reports[i].Failure? && reports[i].name == name ==>
      reports[i].time > 0 && Due(EntryOf(After(entries, reports[..i]), name), reports[i].time)
  }

  ghost predicate NoSuccess(name: string, reports: seq<Report>) {
    forall r :: r in reports && r.name == name ==> r.Failure?
  }

  function Min(a: nat, b: nat): nat {
    if a < b then a else b
  }

  /** The shortest time that k failures in a row can span. */
  function LeastSpan(k: nat): nat {
    if k <= 1 then 0 else LeastSpan(k - 1) + BackoffSeconds(Min(k - 2, BACKOFF_STEPS - 1)) * SECOND
  }

  lemma {:induction false} LeastSpanFrom5(k: nat)
    requires k >= 5
    ensures LeastSpan(k) == (47 + 60 * (k - 5)) * SECOND
  {
    if k == 5 {
      assert LeastSpan(3) == 7 * SECOND;
      assert LeastSpan(5) == LeastSpan(3) + 40 * SECOND;
    } else {
      LeastSpanFrom5(k - 1);
    }
  }

  /** The entry of a source that was rested and has since failed at these times. */
  ghost predicate Streak(e: Entry, fs: seq<Report>) {
    var k := |fs|;
    && e.backoffIndex == Min(k, BACKOFF_STEPS - 1)
    && e.loggedAtLevel == Min(k, BACKOFF_STEPS)
    && e.suppressed == (if k > BACKOFF_STEPS then k - BACKOFF_STEPS else 0)
    && (k > 0 ==>
          && fs[k - 1].time - fs[0].time >= LeastSpan(k)
          && e.nextAttemptAt == fs[k - 1].time + BackoffSeconds(Min(k - 1, BACKOFF_STEPS - 1)) * SECOND)
    && forall i :: 0 <= i < k ==> fs[i].time > 0
  }

  lemma OneMoreFailure(e: Entry, fs: seq<Report>, f: Report)
    requires Streak(e, fs) && f.Failure? && f.time > 0 && (fs != [] ==> Due(e, f.time))
    ensures Streak(Fail(e, f.time, f.error, f.unsupported).0, fs + [f])
    ensures Fail(e, f.time, f.error, f.unsupported).1.shouldLog <==> |fs| < BACKOFF_STEPS
  {
  }

  lemma RestedStreak(e: Entry)
    requires Rested(e)
    ensures Streak(e, [])
  {
  }

  /** Reports about other sources in between make no difference. */
  lemma {:induction false} StreakOfRun(entries: map<string, Entry>, name: string, reports: seq<Report>)
    requires Rested(EntryOf(entries, name)) && NoSuccess(name, reports) && OnlyWhenDue(entries, name, reports)
    ensures Streak(EntryOf(After(entries, reports), name), FailuresOf(name, reports))
  {
    hide Fail, Streak, Due;
    if reports == [] {
      RestedStreak(EntryOf(entries, name));
    } else {
      var front, last := reports[..|reports| - 1], reports[|reports| - 1];
      assert forall i :: 0 <= i < |front| ==> front[i] == reports[i] && front[..i] == reports[..i];
      StreakOfRun(entries, name, front);
      if last.name == name {
        assert last in reports;
        OneMoreFailure(EntryOf(After(entries, front), name), FailuresOf(name, front), last);
      } else {
        assert FailuresOf(name, front) + [] == FailuresOf(name, front);
      }
    }
  }

  /**
   From rest, k >= 5 failures in a row of a source attempted only when due span
   at least 47 + 60(k - 5) seconds, whatever other sources do meanwhile.
   */
  lemma FailuresAreSpread(entries: map<string, Entry>, name: string, reports: seq<Report>)
    requires Rested(EntryOf(entries, name)) && NoSuccess(name, reports) && OnlyWhenDue(entries, name, reports)
    requires |FailuresOf(name, reports)| >= 5
    ensures var fs := FailuresOf(name, reports);
            fs[|fs| - 1].time - fs[0].time >= (47 + 60 * (|fs| - 5)) * SECOND
  {
    StreakOfRun(entries, name, reports);
    LeastSpanFrom5(|FailuresOf(name, reports)|);
  }

  /** The next failure of a streak is logged exactly when it is among the first five. */
  lemma FirstFiveAreLogged(entries: map<string, Entry>, name: string, reports: seq<Report>, time: int, error: Option<string>, unsupported: bool)
    requires Rested(EntryOf(entries, name)) && NoSuccess(name, reports) && OnlyWhenDue(entries, name, reports)
    ensures Fail(EntryOf(After(entries, reports), name), time, error, unsupported).1.shouldLog <==>
            |FailuresOf(name, reports)| < BACKOFF_STEPS
    ensures |FailuresOf(name, reports)| >= BACKOFF_STEPS ==>
            EntryOf(After(entries, reports), name).suppressed == |FailuresOf(name, reports)| - BACKOFF_STEPS
    ensures Fail(EntryOf(After(entries, reports), name), time, error, unsupported).1.retryAt == time + 1_000_000_000 *
            (match |FailuresOf(name, reports)| case 0 => 2 case 1 => 5 case 2 => 10 case 3 => 30 case _ => 60)
  {
    StreakOfRun(entries, name, reports);
  }

  /** One success restores the first step: the next attempt is due at once and the streak starts over. */
  lemma SuccessRestores(e: Entry, now: int, events: nat, d: Diagnostics, later: int)
    ensures Rested(Succeed(e, now, events, d)) && Due(Succeed(e, now, events, d), later) && Streak(Succeed(e, now, events, d), [])
    ensures Fail(Succeed(e, now, events, d), later, None, false).1 == Advice(true, 0, later + 2 * SECOND)
  {
  }

  /** After a failure the next attempt is due exactly from the announced time on. */
  lemma DueAgain(e: Entry, now: int, error: Option<string>, unsupported: bool, later: int)
    requires now > 0
    ensures var (after, advice) := Fail(e, now, error, unsupported); Due(after, later) <==> later >= advice.retryAt
  {
  }

  // ----- the health that is reported -----

  /** The number of failures, or of failures since the last success. */
  function Failures(name: string, reports: seq<Report>, sinceSuccess: bool): nat {
    if reports == [] then 0
    else
      var last := reports[|reports| - 1];
      if last.name == name && last.Success? && sinceSuccess then 0
      else Failures(name, reports[..|reports| - 1], sinceSuccess) + (if last.name == name && last.Failure? then 1 else 0)
  }

  function EventsReported(name: string, reports: seq<Report>): nat {
    if reports == [] then 0
    else
      var last := reports[|reports| - 1];
      EventsReported(name, reports[..|reports| - 1]) + (if last.name == name && last.Success? then last.events else 0)
  }

  /** The last report of a source. */
  function LastOf(name: string, reports: seq<Report>): Option<Report> {
    if reports == [] then None
    else if reports[|reports| - 1].name == name then Some(reports[|reports| - 1])
    else LastOf(name, reports[..|reports| - 1])
  }

  /** What the entry of a source says, in terms of the reports about it. */
  ghost predicate Reflects(e: Entry, name: string, reports: seq<Report>) {
    var last := LastOf(name, reports);
    && e.errorCount == Failures(name, reports, false)
    && e.consecutiveErrors == Failures(name, reports, true)
    && e.eventsRead == EventsReported(name, reports)
    && e.state == (match last
                   case None => Starting
                   case Some(Success(_, _, _, _)) => Healthy
                   case Some(Failure(_, _, _, unsupported)) => if unsupported then Unsupported else Degraded)
    && (last.Some? && last.value.Failure? ==>
          && e.lastErrorAt == last.value.time && e.nextAttemptAt == last.value.time + e.backoffSeconds * 1_000_000_000
          && (last.value.error.Some? ==>
                var text := last.value.error.value; e.lastError == if |text| <= 512 then text else text[..512]))
    && (last.Some? && last.value.Success? ==> e.lastSuccessAt == last.value.time && e.lastError == "" && e.nextAttemptAt == 0)
  }

  /** The health of a source after any run. */
  lemma {:induction false} HealthOfRun(name: string, reports: seq<Report>)
    ensures forall after :: After(map[], reports) == after ==> Reflects(EntryOf(after, name), name, reports)
  {
    if reports != [] {
      HealthOfRun(name, reports[..|reports| - 1]);
      assert Reflects(EntryOf(After(map[], reports[..|reports| - 1]), name), name, reports[..|reports| - 1]);
    }
  }

  /**
   The failures folded away are never reported: once repeats are suppressed no
   later failure of the streak is logged, and a success drops their number.
   */
  lemma {:induction false} SuppressedIsNeverReported(name: string, reports: seq<Report>, time: int, error: Option<string>, unsupported: bool)
    ensures forall after :: After(map[], reports) == after ==>
            var e := EntryOf(after, name);
            && (e.suppressed > 0 ==> e.loggedAtLevel == BACKOFF_STEPS)
            && e.backoffIndex < BACKOFF_STEPS
            && (e.loggedAtLevel == e.backoffIndex || (e.loggedAtLevel == BACKOFF_STEPS && e.backoffIndex == BACKOFF_STEPS - 1))
            && Fail(e, time, error, unsupported).1.suppressed == 0
  {
    if reports != [] {
      SuppressedIsNeverReported(name, reports[..|reports| - 1], time, error, unsupported);
      var _ := EntryOf(After(map[], reports[..|reports| - 1]), name);
    }
  }
}
