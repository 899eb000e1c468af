# Thread load tracker, verified in Dafny

This project models Blink's scheduler `ThreadLoadTracker`. The tracker measures the fraction of wall time a thread spends running tasks. Every `reporting_interval_` time units it reports that fraction for the window that just ended, by calling a callback with the window's end and the load level.

Callers feed the tracker task boundaries (`RecordTaskTime`), idle spans (`RecordIdle`) and thread state changes (`Pause`, `Resume`). They can also drop the current window with `Reset`. The private `Advance` (header lines 51-53) moves the tracker's clock to a given instant and calls the callback as many times as needed on the way. In this model `Advance` goes one window end at a time. It adds run time only for spans that are both on an active thread and running a task. At each window end it reports the window and opens the next one.

The header describes the reported average as one over a sliding window of width `reporting_interval_` (line 21). Since that average is only sampled once per interval, at the window ends, the windows sampled are consecutive and disjoint. Those disjoint windows are what the model keeps.

The project has two modules:

- `LoadWindow` (`load_window.dfy`) is the accounting arithmetic, as values.
  - `Window` holds the clock, the window end and the run time in the window.
  - `Contributes` is the rule for which spans add run time.
  - `Step` is one iteration of the catch-up loop.
  - `ClosedWindow` and `ClosedReports` state the outcome of a whole advance in closed form: the final window, and one `Report` per window end crossed.
  - The lemmas prove what the tracker promises about its reports. There is exactly one report per window end in (clock, now], in increasing order, and each load lies in [0, 1]. An idle span, or any span on a paused thread, adds no run time, while running time is accounted in full. Splitting an advance into two calls changes nothing.
- `Scheduler` (`thread_load_tracker.dfy`) is the class `ThreadLoadTracker`, with the header's fields.
  - `Advance` is a `while` loop proved against the closed form. Its body, `AdvanceToNextBoundary`, is proved against `Step`.
  - The public operations are built on `Advance`, which is a modelling choice described below.
  - The callback becomes a ghost log `reports` of `Report(at, runTime)` pairs. The load passed to the callback is `LoadOf(runTime, reportingInterval)`.
  - The class invariant `Valid()` says three things. The clock lies inside the window that ends at `nextReportingTime`. The run time is at most the part of the window already elapsed. The report log is strictly increasing and never runs ahead of the clock.
  - Five scenario methods derive concrete report sequences for whole families of inputs: a partial window, a catch-up over many windows, a pause at a window boundary, a pause in the middle of a window, and a pause followed by a resume.

Only the header of the tracker is part of this model; the implementation file `thread_load_tracker.cc` is not. The header declares the operations (lines 29-42) but does not say what the constructor, `Pause`, `Resume`, `Reset` or `RecordTaskTime` do to the state, nor that they go through `Advance`. The following are therefore modelling choices that the header does not fix:

- The constructor starts an active thread with an empty window that ends one interval after `now`.
- `Pause` and `Resume` account the span up to `now` as idle through `Advance`, then set the thread state and the last state change time. A pause does not close the open window. Run time recorded before a pause in the middle of a window is reported at that window's end, even though the thread is paused by then (`MidWindowPauseScenario`).
- `Reset` discards the open window and re-anchors the window grid at `now`. The only thing the header says about `Reset` (line 37) is that it leaves `thread_state_` unchanged, and the model keeps that.
- `RecordTaskTime` advances to the task's start as idle, then to its end as running.
- Every operation requires that instants never go backwards and that the interval is positive. The model treats a violation as a usage error the caller must not make.

`lastStateChangeTime` (header line 62) is written by the constructor, `Pause` and `Resume`, but no modelled operation reads it.

## Model

| member | source | states |
|---|---|---|
| LoadWindow.Contributes | inteldeviceservice/dst/src/third_party/blink/renderer/platform/scheduler/common/thread_load_tracker.h:47-49 | A span adds run time when the thread is active and a task is running, and only then: a paused thread or an idle span never adds any. |
| LoadWindow.LoadOf | inteldeviceservice/dst/src/third_party/blink/renderer/platform/scheduler/common/thread_load_tracker.h:55 | The load level is run time over the interval. It lies in [0, 1], is 0 exactly when nothing ran and 1 exactly when the whole window ran. |
| LoadWindow.Crossed | inteldeviceservice/dst/src/third_party/blink/renderer/platform/scheduler/common/thread_load_tracker.h:51-53 | The number of window ends an advance to `now` crosses. It is 0 before the window end; otherwise the last end crossed is at or before `now` and the next one lies beyond it. |
| LoadWindow.CrossedCountsWindowEnds | inteldeviceservice/dst/src/third_party/blink/renderer/platform/scheduler/common/thread_load_tracker.h:51-53 | A window end `next + m*interval` is at or before `now` exactly when m is less than the crossed count. |
| LoadWindow.Step | inteldeviceservice/dst/src/third_party/blink/renderer/platform/scheduler/common/thread_load_tracker.h:51-53 | One iteration of the catch-up loop strictly moves the clock forward, never past `now`. It keeps the window invariant and reports at most once. |
| LoadWindow.ClosedWindow | inteldeviceservice/dst/src/third_party/blink/renderer/platform/scheduler/common/thread_load_tracker.h:51-53 | After an advance, the clock equals `now` exactly and the window invariant holds again. |
| LoadWindow.ClosedReports | inteldeviceservice/dst/src/third_party/blink/renderer/platform/scheduler/common/thread_load_tracker.h:26-27 | The callback invocations of one advance. There are none exactly when `now` is before the window end; otherwise the first is at the current window end. |
| LoadWindow.StepKeepsClosedForm | inteldeviceservice/dst/src/third_party/blink/renderer/platform/scheduler/common/thread_load_tracker.h:51-53 | A loop iteration leaves the final window of the advance unchanged. Its report, followed by the reports still to come, is the full report sequence. |
| LoadWindow.StepExtendsLog | inteldeviceservice/dst/src/third_party/blink/renderer/platform/scheduler/common/thread_load_tracker.h:26-27 | The same as StepKeepsClosedForm, stated for a callback history the step's report is appended to. |
| LoadWindow.ClosedFormCaughtUp | inteldeviceservice/dst/src/third_party/blink/renderer/platform/scheduler/common/thread_load_tracker.h:57-58 | Advancing to the instant the tracker already knows changes nothing and reports nothing. |
| LoadWindow.ClosedWindowOnGrid | inteldeviceservice/dst/src/third_party/blink/renderer/platform/scheduler/common/thread_load_tracker.h:19-21 | The reporting time moves by exactly one interval per report, so window ends stay on a fixed grid. |
| LoadWindow.ClosedReportsOnePerBoundary | inteldeviceservice/dst/src/third_party/blink/renderer/platform/scheduler/common/thread_load_tracker.h:51-53 | There is one report per window end strictly after the old clock and at or before `now`, and none otherwise. Each report is stamped with its window end, in strictly increasing order. |
| LoadWindow.ClosedReportsBounded | inteldeviceservice/dst/src/third_party/blink/renderer/platform/scheduler/common/thread_load_tracker.h:26-27 | Every reported run time is between 0 and one interval, so every reported load level lies in [0, 1]. |
| LoadWindow.IdleAddsNoRunTime | inteldeviceservice/dst/src/third_party/blink/renderer/platform/scheduler/common/thread_load_tracker.h:42 | An idle span, or any span on a paused thread, adds no run time. The first report carries only what the window already had, and later reports carry 0. |
| LoadWindow.RunningCountsWholeSpan | inteldeviceservice/dst/src/third_party/blink/renderer/platform/scheduler/common/thread_load_tracker.h:40 | A running span on an active thread is accounted in full. The run time in the reports plus what is left in the window equals the old window's run time plus the span's length. |
| LoadWindow.BeforeWindowEnd | inteldeviceservice/dst/src/third_party/blink/renderer/platform/scheduler/common/thread_load_tracker.h:51-53 | An advance that stays before the window end reports nothing and only adds the span's run time. |
| LoadWindow.PastOneWindowEnd | inteldeviceservice/dst/src/third_party/blink/renderer/platform/scheduler/common/thread_load_tracker.h:51-53 | An advance past exactly one window end reports once, with the window's run time plus the span up to the end. It opens the next window with the rest of the span. |
| LoadWindow.FullWindowReportsFullLoad | inteldeviceservice/dst/src/third_party/blink/renderer/platform/scheduler/common/thread_load_tracker.h:40 | A task running for exactly one whole window, started on a window boundary, is reported once with load 1. |
| LoadWindow.WindowsFromBoundary | inteldeviceservice/dst/src/third_party/blink/renderer/platform/scheduler/common/thread_load_tracker.h:51-53 | Starting from an empty window on a boundary, an advance over n whole windows and `rest` more reports n times, at successive window ends. Each report carries a whole window (running) or nothing (idle), and `rest` is left pending. |
| LoadWindow.AdvanceInTwoCalls | inteldeviceservice/dst/src/third_party/blink/renderer/platform/scheduler/common/thread_load_tracker.h:51-53 | Advancing to `a` and then to `b` gives the same window and the same reports, in the same order, as advancing to `b` in one call. |
| LoadWindow.ReportLogExtends | inteldeviceservice/dst/src/third_party/blink/renderer/platform/scheduler/common/thread_load_tracker.h:26-27 | Appending an advance's reports keeps the callback history well formed. Instants strictly increase, none is later than the clock, and every run time is within one interval. |
| Scheduler.ThreadLoadTracker.Valid | inteldeviceservice/dst/src/third_party/blink/renderer/platform/scheduler/common/thread_load_tracker.h:57-68 | The tracker invariant from the field comments. The clock lies in the window ending at the next reporting time, the run time fits in the elapsed part of that window, and the callback history is strictly increasing and not ahead of the clock. |
| Scheduler.ThreadLoadTracker.ValidBounds | inteldeviceservice/dst/src/third_party/blink/renderer/platform/scheduler/common/thread_load_tracker.h:66-68 | Under the invariant, the run time inside the window is between 0 and one interval, and the clock lies in [next reporting time - interval, next reporting time). |
| Scheduler.ThreadLoadTracker.constructor | inteldeviceservice/dst/src/third_party/blink/renderer/platform/scheduler/common/thread_load_tracker.h:29-31 | A new tracker is active, with clock `now`, an empty window ending one interval later, and no reports. |
| Scheduler.ThreadLoadTracker.Load | inteldeviceservice/dst/src/third_party/blink/renderer/platform/scheduler/common/thread_load_tracker.h:55 | The current load level lies in [0, 1]; multiplied by the interval, it gives the run time inside the window. |
| Scheduler.ThreadLoadTracker.Advance | inteldeviceservice/dst/src/third_party/blink/renderer/platform/scheduler/common/thread_load_tracker.h:51-53 | The loop brings the tracker to exactly the closed-form window and appends exactly the closed-form reports. Thread state and last state change time are unchanged, and the class invariant is kept. |
| Scheduler.ThreadLoadTracker.AdvanceToNextBoundary | inteldeviceservice/dst/src/third_party/blink/renderer/platform/scheduler/common/thread_load_tracker.h:51-53 | One iteration of the loop in Advance changes the window and the callback history exactly as `Step` says, and leaves the thread state alone. |
| Scheduler.ThreadLoadTracker.Pause | inteldeviceservice/dst/src/third_party/blink/renderer/platform/scheduler/common/thread_load_tracker.h:34 | Accounts the span up to `now` as idle, then the thread is paused with its last state change at `now`. The open window, with the run time recorded before the pause, stays open. |
| Scheduler.ThreadLoadTracker.Resume | inteldeviceservice/dst/src/third_party/blink/renderer/platform/scheduler/common/thread_load_tracker.h:35 | Accounts the span up to `now` as idle, then the thread is active with its last state change at `now`. |
| Scheduler.ThreadLoadTracker.Reset | inteldeviceservice/dst/src/third_party/blink/renderer/platform/scheduler/common/thread_load_tracker.h:37-38 | The window is discarded and the grid restarts at `now`. Thread state, last state change time and report history are unchanged. |
| Scheduler.ThreadLoadTracker.RecordTaskTime | inteldeviceservice/dst/src/third_party/blink/renderer/platform/scheduler/common/thread_load_tracker.h:40 | Accounts the gap before the task as idle, then the task as running, which counts only on an active thread. The reports are those of the two advances, in order. |
| Scheduler.ThreadLoadTracker.RecordIdle | inteldeviceservice/dst/src/third_party/blink/renderer/platform/scheduler/common/thread_load_tracker.h:42 | Accounts the span up to `now` as idle. Its reports are exactly the closed-form idle reports. |
| Scheduler.PartialWindowScenario | inteldeviceservice/dst/src/third_party/blink/renderer/platform/scheduler/common/thread_load_tracker.h:40-42 | A task of `busy` units from a boundary, then idle to the window end, gives exactly one report at that end, with load busy / interval. |
| Scheduler.CatchUpScenario | inteldeviceservice/dst/src/third_party/blink/renderer/platform/scheduler/common/thread_load_tracker.h:51-53 | One task over n whole windows and `rest` more gives n reports of load 1, at the successive window ends, with `rest` pending before the next end. |
| Scheduler.PausedSpanScenario | inteldeviceservice/dst/src/third_party/blink/renderer/platform/scheduler/common/thread_load_tracker.h:34 | A tracker paused on an empty window boundary reports load 0 at every window end it crosses, even while a task is recorded. |
| Scheduler.MidWindowPauseScenario | inteldeviceservice/dst/src/third_party/blink/renderer/platform/scheduler/common/thread_load_tracker.h:34 | A pause in the middle of a window keeps the run time recorded before it. The window end reached while paused reports that run time, a load above 0. |
| Scheduler.ResumeScenario | inteldeviceservice/dst/src/third_party/blink/renderer/platform/scheduler/common/thread_load_tracker.h:35 | After a pause and a resume, task time counts again. |

## Left out

- `device_capacity_` (header lines 11 and 72-73) is declared but has no read or write in the tracker's contract, so it is not modelled.
- The callback object (lines 26-27 and 70) is replaced by the ghost history `reports`. Callback failure and re-entrancy are not modelled.
- Load levels are modelled as exact reals, not as the `double` at line 55, so floating-point rounding is not modelled.
- `base::TimeTicks` and `base::TimeDelta` are modelled as unbounded integers in one fixed time unit, so 64-bit overflow is not modelled.
- The implementation file `thread_load_tracker.cc` is not part of this model. The effects of the constructor, `Pause`, `Resume`, `Reset` and `RecordTaskTime` are the modelling choices listed above, not facts the header states.
- Scheduler.ThreadLoadTracker.Pause: a pause does not close the open window. The first window end after a pause in the middle of a window carries the run time recorded before the pause, so a span spent paused does not always report load 0. Only a tracker paused on an empty window boundary reports 0 at every window end while paused.
- Scheduler.ThreadLoadTracker.Reset: requires `now` to be no earlier than the tracker's clock, because instants going backwards are a usage error for every operation of the tracker.
- The destructor (line 32), `DISALLOW_NEW` and `PLATFORM_EXPORT` have no behaviour to model.
- Wake-up counting (the TODO at line 44) is not implemented in the source.
- The tracker is not synchronised and is used from one thread, so concurrency is not modelled. Instants come from the caller, so no clock is modelled.
