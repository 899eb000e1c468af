/** The thread load tracker: the fraction of wall time a thread spends running
    tasks, reported once per reporting interval. The callback the tracker is built
    with is replaced by the ghost log `reports`, to which every invocation appends
    its (instant, run time inside the window) pair. All instants are supplied by the
    caller. */
module Scheduler {
  import opened LoadWindow

  class ThreadLoadTracker {
    /** The last instant the tracker knows about. */
    var time: int
    /** The end of the current reporting window. */
    var nextReportingTime: int
    var threadState: ThreadState
    var lastStateChangeTime: int
    const reportingInterval: int
    /** Run time recorded in the window
        [nextReportingTime - reportingInterval, nextReportingTime]. */
    var runTimeInsideWindow: int
    /** Every callback invocation so far, oldest first. */
    ghost var reports: seq<Report>

    function CurrentWindow(): Window
      reads this
    {
      Window(time, nextReportingTime, runTimeInsideWindow)
    }

    /** The tracker invariant: the clock lies in the window ending at
        `nextReportingTime`, the run time recorded fits in the window, and the
        callback history is well formed. */
    ghost predicate Valid()
      reads this
    {
      WindowValid(CurrentWindow(), reportingInterval) &&
      lastStateChangeTime <= time &&
      ReportLogValid(reports, reportingInterval, time)
    }

    /** The tracker invariant bounds the recorded run time by one interval and keeps
        the clock inside the window that ends at the next reporting time. */
    lemma ValidBounds()
      requires Valid()
      ensures 0 <= runTimeInsideWindow <= reportingInterval
      ensures nextReportingTime - reportingInterval <= time < nextReportingTime
    {
    }

    /** The tracker starts on an active thread with an empty window ending one
        reporting interval after `now`. */
    constructor (now: int, reportingInterval: int)
      requires reportingInterval > 0
      ensures Valid()
      ensures time == now && nextReportingTime == now + reportingInterval
      ensures runTimeInsideWindow == 0 && this.reportingInterval == reportingInterval
      ensures threadState == Active && lastStateChangeTime == now
      ensures reports == []
    {
      time := now;
      nextReportingTime := now + reportingInterval;
      threadState := Active;
      lastStateChangeTime := now;
      this.reportingInterval := reportingInterval;
      runTimeInsideWindow := 0;
      reports := [];
    }

    /** The load level of the current window: run time over the interval. */
    function Load(): (r: real)
      reads this
      requires Valid()
      ensures 0.0 <= r <= 1.0
      ensures r * reportingInterval as real == runTimeInsideWindow as real
    {
      LoadOf(runTimeInsideWindow, reportingInterval)
    }

    /** Moves the clock to `now`, one window end at a time, reporting every window
        end crossed and opening the next window after each. */
    method Advance(now: int, taskState: TaskState)
      requires Valid() && time <= now
      modifies this
      ensures Valid()
      ensures CurrentWindow()
              == ClosedWindow(old(CurrentWindow()), reportingInterval,
                              Contributes(threadState, taskState), now)
      ensures reports
              == old(reports) + ClosedReports(old(CurrentWindow()), reportingInterval,
                                              Contributes(threadState, taskState), now)
      ensures threadState == old(threadState) && lastStateChangeTime == old(lastStateChangeTime)
    {
      ghost var start := CurrentWindow();
      ghost var counts := Contributes(threadState, taskState);
      ghost var finalWindow := ClosedWindow(start, reportingInterval, counts, now);
      ghost var finalReports := reports + ClosedReports(start, reportingInterval, counts, now);
      ReportLogExtends(reports, start, reportingInterval, counts, now);
      while time < now
        invariant WindowValid(CurrentWindow(), reportingInterval) && time <= now
        invariant threadState == old(threadState)
        invariant lastStateChangeTime == old(lastStateChangeTime)
        invariant ClosedWindow(CurrentWindow(), reportingInterval, counts, now) == finalWindow
        invariant reports + ClosedReports(CurrentWindow(), reportingInterval, counts, now)
                  == finalReports
        decreases now - time
      {
        StepExtendsLog(reports, CurrentWindow(), reportingInterval, counts, now);
        AdvanceToNextBoundary(now, taskState);
      }
      ClosedFormCaughtUp(CurrentWindow(), reportingInterval, counts);
      assert reports == finalReports;
    }

    /** One iteration of the loop in Advance: move the clock to the earlier of `now`
        and the window end, add the span's run time if it counts, and at the window
        end report the window and open the next one. */
    method AdvanceToNextBoundary(now: int, taskState: TaskState)
      requires WindowValid(CurrentWindow(), reportingInterval) && time < now
      modifies this
      ensures var step := Step(old(CurrentWindow()), reportingInterval,
                               Contributes(threadState, taskState), now);
        CurrentWindow() == step.0 && reports == old(reports) + step.1
      ensures threadState == old(threadState) && lastStateChangeTime == old(lastStateChangeTime)
    {
      var nextCurrentTime := Min(nextReportingTime, now);
      var delta := nextCurrentTime - time;
      if threadState == Active && taskState == TaskRunning {
        runTimeInsideWindow := runTimeInsideWindow + delta;
      }
      time := nextCurrentTime;
      if time == nextReportingTime {
        reports := reports + [Report(time, runTimeInsideWindow)];
        runTimeInsideWindow := 0;
        nextReportingTime := nextReportingTime + reportingInterval;
      }
    }

    /** Accounts the span up to `now` as idle, then marks the thread paused. */
    method Pause(now: int)
      requires Valid() && time <= now
      modifies this
      ensures Valid()
      ensures CurrentWindow() == ClosedWindow(old(CurrentWindow()), reportingInterval, false, now)
      ensures reports == old(reports) + ClosedReports(old(CurrentWindow()), reportingInterval, false, now)
      ensures threadState == Paused && lastStateChangeTime == now
    {
      Advance(now, Idle);
      threadState := Paused;
      lastStateChangeTime := now;
    }

    /** Accounts the span up to `now` as idle, then marks the thread active. */
    method Resume(now: int)
      requires Valid() && time <= now
      modifies this
      ensures Valid()
      ensures CurrentWindow() == ClosedWindow(old(CurrentWindow()), reportingInterval, false, now)
      ensures reports == old(reports) + ClosedReports(old(CurrentWindow()), reportingInterval, false, now)
      ensures threadState == Active && lastStateChangeTime == now
    {
      Advance(now, Idle);
      threadState := Active;
      lastStateChangeTime := now;
    }

    /** Discards the current window without accounting for the span up to `now`:
        the grid is re-anchored so that the next window ends one interval after
        `now`. The thread state is left as it was. */
    method Reset(now: int)
      requires Valid() && time <= now
      modifies this
      ensures Valid()
      ensures time == now && nextReportingTime == now + reportingInterval
      ensures runTimeInsideWindow == 0
      ensures threadState == old(threadState) && lastStateChangeTime == old(lastStateChangeTime)
      ensures reports == old(reports)
    {
      time := now;
      nextReportingTime := now + reportingInterval;
      runTimeInsideWindow := 0;
    }

    /** Accounts [time, startTime] as idle and [startTime, endTime] as running a task. */
    method RecordTaskTime(startTime: int, endTime: int)
      requires Valid() && time <= startTime <= endTime
      modifies this
      ensures Valid()
      ensures var idle := ClosedWindow(old(CurrentWindow()), reportingInterval, false, startTime);
        var counts := Contributes(old(threadState), TaskRunning);
        CurrentWindow() == ClosedWindow(idle, reportingInterval, counts, endTime) &&
        reports == old(reports)
                   + ClosedReports(old(CurrentWindow()), reportingInterval, false, startTime)
                   + ClosedReports(idle, reportingInterval, counts, endTime)
      ensures threadState == old(threadState) && lastStateChangeTime == old(lastStateChangeTime)
    {
      Advance(startTime, Idle);
      Advance(endTime, TaskRunning);
    }

    /** Accounts the span up to `now` as idle. */
    method RecordIdle(now: int)
      requires Valid() && time <= now
      modifies this
      ensures Valid()
      ensures CurrentWindow() == ClosedWindow(old(CurrentWindow()), reportingInterval, false, now)
      ensures reports == old(reports) + ClosedReports(old(CurrentWindow()), reportingInterval, false, now)
      ensures threadState == old(threadState) && lastStateChangeTime == old(lastStateChangeTime)
    {
      Advance(now, Idle);
    }
  }

  /** A task of `busy` units starting at a window boundary, followed by idling to the
      window end, reports once, at that end, with load busy / interval. */
  method PartialWindowScenario(start: int, interval: int, busy: int)
    returns (tracker: ThreadLoadTracker)
    requires 0 <= busy < interval
    ensures tracker.Valid()
    ensures tracker.reports == [Report(start + interval, busy)]
    ensures LoadOf(tracker.reports[0].runTime, interval) * interval as real == busy as real
  {
    tracker := new ThreadLoadTracker(start, interval);
    ClosedFormCaughtUp(tracker.CurrentWindow(), interval, false);
    BeforeWindowEnd(tracker.CurrentWindow(), interval, true, start + busy);
    tracker.RecordTaskTime(start, start + busy);
    PastOneWindowEnd(tracker.CurrentWindow(), interval, false, start + interval);
    tracker.RecordIdle(start + interval);
  }

  /** One task over `n` whole windows and `rest` more units, on an active thread,
      reports load 1 at each of the `n` window ends and leaves `rest` units pending in
      the window after them. */
  method CatchUpScenario(start: int, interval: int, n: nat, rest: int)
    returns (tracker: ThreadLoadTracker)
    requires 0 <= rest < interval
    ensures tracker.Valid()
    ensures |tracker.reports| == n
    ensures forall m :: 0 <= m < n ==>
      tracker.reports[m] == Report(start + (m + 1) * interval, interval)
    ensures tracker.runTimeInsideWindow == rest
    ensures tracker.nextReportingTime == start + (n + 1) * interval
  {
    tracker := new ThreadLoadTracker(start, interval);
    ClosedFormCaughtUp(tracker.CurrentWindow(), interval, false);
    WindowsFromBoundary(tracker.CurrentWindow(), interval, true, n, rest);
    tracker.RecordTaskTime(start, start + n * interval + rest);
  }

  /** A tracker paused on an empty window boundary reports load 0 at every window
      end it crosses, even while a task is recorded. */
  method PausedSpanScenario(start: int, interval: int, n: nat)
    returns (tracker: ThreadLoadTracker)
    requires interval > 0
    ensures tracker.Valid()
    ensures |tracker.reports| == n
    ensures forall m :: 0 <= m < n ==> tracker.reports[m] == Report(start + (m + 1) * interval, 0)
  {
    tracker := new ThreadLoadTracker(start, interval);
    ClosedFormCaughtUp(tracker.CurrentWindow(), interval, false);
    tracker.Pause(start);
    ClosedFormCaughtUp(tracker.CurrentWindow(), interval, false);
    WindowsFromBoundary(tracker.CurrentWindow(), interval, false, n, 0);
    tracker.RecordTaskTime(start, start + n * interval);
  }

  /** Pausing in the middle of a window keeps the run time recorded before the
      pause: the window end reached while paused reports it. */
  method MidWindowPauseScenario(start: int, interval: int, busy: int)
    returns (tracker: ThreadLoadTracker)
    requires 0 < busy < interval
    ensures tracker.Valid() && tracker.threadState == Paused
    ensures tracker.reports == [Report(start + interval, busy)]
    ensures LoadOf(tracker.reports[0].runTime, interval) > 0.0
  {
    tracker := new ThreadLoadTracker(start, interval);
    ClosedFormCaughtUp(tracker.CurrentWindow(), interval, false);
    BeforeWindowEnd(tracker.CurrentWindow(), interval, true, start + busy);
    tracker.RecordTaskTime(start, start + busy);
    assert tracker.CurrentWindow() == Window(start + busy, start + interval, busy);
    assert tracker.reports == [];
    ClosedFormCaughtUp(tracker.CurrentWindow(), interval, false);
    tracker.Pause(start + busy);
    assert tracker.CurrentWindow() == Window(start + busy, start + interval, busy);
    assert tracker.reports == [];
    PastOneWindowEnd(tracker.CurrentWindow(), interval, false, start + interval);
    tracker.RecordIdle(start + interval);
  }

  /** After a pause and a resume at the same instant, task time counts again. */
  method ResumeScenario(start: int, interval: int, busy: int)
    returns (tracker: ThreadLoadTracker)
    requires 0 <= busy < interval
    ensures tracker.Valid()
    ensures tracker.threadState == Active
    ensures tracker.runTimeInsideWindow == busy && tracker.reports == []
  {
    tracker := new ThreadLoadTracker(start, interval);
    ClosedFormCaughtUp(tracker.CurrentWindow(), interval, false);
    tracker.Pause(start);
    ClosedFormCaughtUp(tracker.CurrentWindow(), interval, false);
    tracker.Resume(start);
    ClosedFormCaughtUp(tracker.CurrentWindow(), interval, false);
    BeforeWindowEnd(tracker.CurrentWindow(), interval, true, start + busy);
    tracker.RecordTaskTime(start, start + busy);
  }
}
