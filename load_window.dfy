/** The accounting arithmetic of the thread load tracker, as values.

    A tracker owns a tumbling window of width `interval`: the window ends at the
    next reporting instant `next`, the tracker's clock `time` lies inside it, and
    `run` is the task run time recorded inside the window so far. Advancing the
    clock to `now` crosses zero, one or many window ends; each crossed end yields
    one report. `Step` is one iteration of the tracker's catch-up loop;
    `ClosedWindow` and `ClosedReports` give the outcome of the whole loop in closed
    form, and `StepKeepsClosedForm` ties the two together.

    The average is described as one over a sliding window of width `interval`;
    since it is only sampled once per interval, at the window ends, the windows
    sampled are consecutive and disjoint, and that is the window modelled here. */
module LoadWindow {

  /** Whether the thread is eligible to run tasks at all. */
  datatype ThreadState = Active | Paused

  /** The activity of the span being advanced over. */
  datatype TaskState = TaskRunning | Idle

  /** One callback invocation: the window end it was fired at and the run time
      recorded inside that window. The load it stands for is LoadOf(runTime, interval). */
  datatype Report = Report(at: int, runTime: int)

  /** The accounting part of the tracker state. */
  datatype Window = Window(time: int, next: int, run: int)

  /** Only a span that is both on an active thread and running a task adds run time. */
  predicate Contributes(thread: ThreadState, task: TaskState)
    ensures thread == Paused ==> !Contributes(thread, task)
    ensures task == Idle ==> !Contributes(thread, task)
    ensures thread == Active && task == TaskRunning ==> Contributes(thread, task)
  {
    thread == Active && task == TaskRunning
  }

  /** The run time a span of length `elapsed` adds to the window. */
  function Gain(counts: bool, elapsed: int): int {
    if counts then elapsed else 0
  }

  function Min(a: int, b: int): int {
    if a <= b then a else b
  }

  /** The window invariant: the clock lies in the window that ends at `next`
      (strictly before its end, since reaching the end closes it), and the run time
      recorded is no more than the part of the window already elapsed. */
  predicate WindowValid(w: Window, interval: int) {
    interval > 0 &&
    w.next - interval <= w.time < w.next &&
    0 <= w.run <= w.time - (w.next - interval)
  }

  /** The reported load level: the fraction of the window spent running tasks. */
  function LoadOf(runTime: int, interval: int): (r: real)
    requires 0 < interval && 0 <= runTime <= interval
    ensures 0.0 <= r <= 1.0
    ensures r == 0.0 <==> runTime == 0
    ensures r == 1.0 <==> runTime == interval
    ensures r * interval as real == runTime as real
  {
    runTime as real / interval as real
  }

  /** The number of window ends `w.next + m * interval` (m >= 0) at or before `now`:
      none when `now` is before the window end, otherwise the last one crossed is the
      (k-1)-th and the k-th lies beyond `now`. */
  function Crossed(w: Window, interval: int, now: int): (k: nat)
    requires WindowValid(w, interval) && w.time <= now
    ensures now < w.next ==> k == 0
    ensures now >= w.next ==> k >= 1 && w.next + (k - 1) * interval <= now < w.next + k * interval
  {
    if now < w.next then 0
    else
      var k := (now - w.next) / interval + 1;
      assert w.next + (k - 1) * interval <= now < w.next + k * interval;
      k
  }

  /** Crossed counts exactly the window ends at or before `now`. */
  lemma CrossedCountsWindowEnds(w: Window, interval: int, now: int)
    requires WindowValid(w, interval) && w.time <= now
    ensures forall m: nat :: w.next + m * interval <= now <==> m < Crossed(w, interval, now)
  {
    GridMonotone(w.next, interval, Crossed(w, interval, now), now);
  }

  /** Window ends grow with their index. */
  lemma GridMonotone(start: int, interval: int, k: nat, now: int)
    requires interval > 0
    requires k > 0 ==> start + (k - 1) * interval <= now
    requires now < start + k * interval
    ensures forall m: nat :: start + m * interval <= now <==> m < k
  {
    forall m: nat
      ensures start + m * interval <= now <==> m < k
    {
      if m < k {
        assert start + m * interval <= start + (k - 1) * interval by {
          MulMonotone(m, k - 1, interval);
        }
      } else {
        assert start + k * interval <= start + m * interval by {
          MulMonotone(k, m, interval);
        }
      }
    }
  }

  lemma MulMonotone(a: int, b: int, c: int)
    requires a <= b && c > 0
    ensures a * c <= b * c
  {
    assert b * c - a * c == (b - a) * c;
  }

  /** One iteration of the catch-up loop: move the clock to the earlier of `now`
      and the window end, add the run time of that span, and if the window end
      was reached, report it and open the next window. */
  function Step(w: Window, interval: int, counts: bool, now: int): (r: (Window, seq<Report>))
    requires WindowValid(w, interval) && w.time < now
    ensures WindowValid(r.0, interval)
    ensures w.time < r.0.time <= now
    ensures |r.1| <= 1
  {
    var t := Min(now, w.next);
    var run := w.run + Gain(counts, t - w.time);
    if t == w.next then (Window(t, w.next + interval, 0), [Report(t, run)])
    else (Window(t, w.next, run), [])
  }

  /** Closed form of the window after advancing to `now`: the clock has caught up
      with `now` exactly and the window invariant holds again. */
  function ClosedWindow(w: Window, interval: int, counts: bool, now: int): (r: Window)
    requires WindowValid(w, interval) && w.time <= now
    ensures r.time == now && WindowValid(r, interval)
  {
    var k := Crossed(w, interval, now);
    if k == 0 then Window(now, w.next, w.run + Gain(counts, now - w.time))
    else
      assert w.next + (k - 1) * interval <= now < w.next + k * interval;
      Window(now, w.next + k * interval, Gain(counts, now - (w.next + (k - 1) * interval)))
  }

  /** Closed form of the reports emitted while advancing to `now`: report m is at
      the m-th window end; the first carries what the current window had plus the
      span up to its end, each later one a whole window's span. */
  function ClosedReports(w: Window, interval: int, counts: bool, now: int): (r: seq<Report>)
    requires WindowValid(w, interval) && w.time <= now
    ensures r == [] <==> now < w.next
    ensures r != [] ==> r[0].at == w.next
  {
    seq(Crossed(w, interval, now), m => BoundaryReport(w, interval, counts, m))
  }

  /** The report fired at the m-th window end from `w`. */
  function BoundaryReport(w: Window, interval: int, counts: bool, m: int): Report {
    Report(w.next + m * interval,
           if m == 0 then w.run + Gain(counts, w.next - w.time) else Gain(counts, interval))
  }

  /** Helper: Euclidean division is determined by quotient and remainder. */
  lemma DivUnique(x: int, d: int, q: int, r: int)
    requires d > 0 && 0 <= r < d && x == q * d + r
    ensures x / d == q
  {
    var q0, r0 := x / d, x % d;
    assert x == q0 * d + r0;
    if q0 < q {
      MulMonotone(q0 + 1, q, d);
      assert false;
    } else if q < q0 {
      MulMonotone(q + 1, q0, d);
      assert false;
    }
  }

  lemma DivStep(x: int, d: int)
    requires d > 0 && x >= d
    ensures (x - d) / d == x / d - 1
  {
    var q, r := x / d, x % d;
    assert x - d == (q - 1) * d + r;
    DivUnique(x - d, d, q - 1, r);
  }

  /** One iteration of the catch-up loop keeps the closed form: advancing from the
      stepped window reaches the same final window, and the step's report followed
      by the remaining ones are all the reports. */
  lemma StepKeepsClosedForm(w: Window, interval: int, counts: bool, now: int)
    requires WindowValid(w, interval) && w.time < now
    ensures var step := Step(w, interval, counts, now);
      ClosedWindow(step.0, interval, counts, now) == ClosedWindow(w, interval, counts, now) &&
      step.1 + ClosedReports(step.0, interval, counts, now) == ClosedReports(w, interval, counts, now)
  {
    if now < w.next {
      StepWithinWindow(w, interval, counts, now);
    } else {
      StepToWindowEnd(w, interval, counts, now);
      StepToWindowEndWindow(w, interval, counts, now);
    }
  }

  /** StepKeepsClosedForm for a log: the step's report appended to the log, then the
      remaining reports, make the log followed by all the reports. */
  lemma StepExtendsLog(log: seq<Report>, w: Window, interval: int, counts: bool, now: int)
    requires WindowValid(w, interval) && w.time < now
    ensures var step := Step(w, interval, counts, now);
      ClosedWindow(step.0, interval, counts, now) == ClosedWindow(w, interval, counts, now) &&
      (log + step.1) + ClosedReports(step.0, interval, counts, now)
      == log + ClosedReports(w, interval, counts, now)
  {
    StepKeepsClosedForm(w, interval, counts, now);
    var step := Step(w, interval, counts, now);
    assert (log + step.1) + ClosedReports(step.0, interval, counts, now)
           == log + (step.1 + ClosedReports(step.0, interval, counts, now));
  }

  /** Once the clock is at `now`, the closed form changes nothing and reports nothing. */
  lemma ClosedFormCaughtUp(w: Window, interval: int, counts: bool)
    requires WindowValid(w, interval)
    ensures ClosedWindow(w, interval, counts, w.time) == w
    ensures ClosedReports(w, interval, counts, w.time) == []
  {
    assert Crossed(w, interval, w.time) == 0;
  }

  /** A step that stays inside the window reaches `now` and reports nothing, as the
      closed form says. */
  lemma StepWithinWindow(w: Window, interval: int, counts: bool, now: int)
    requires WindowValid(w, interval) && w.time < now < w.next
    ensures var step := Step(w, interval, counts, now);
      step.0.time == now && step.1 == [] && ClosedReports(w, interval, counts, now) == [] &&
      ClosedWindow(step.0, interval, counts, now) == ClosedWindow(w, interval, counts, now) &&
      ClosedReports(step.0, interval, counts, now) == []
  {
  }

  /** Reaching the window end leaves one window end fewer to cross. */
  lemma CrossedAfterWindowEnd(w: Window, interval: int, now: int)
    requires WindowValid(w, interval) && w.next <= now
    ensures WindowValid(Window(w.next, w.next + interval, 0), interval)
    ensures Crossed(Window(w.next, w.next + interval, 0), interval, now)
            == Crossed(w, interval, now) - 1
  {
    if now >= w.next + interval {
      DivStep(now - w.next, interval);
    }
  }

  /** A step that reaches the window end reports it, and the reports of the closed
      form from the next window continue those of the closed form from this one. */
  lemma StepToWindowEnd(w: Window, interval: int, counts: bool, now: int)
    requires WindowValid(w, interval) && w.time < now && w.next <= now
    ensures var step := Step(w, interval, counts, now);
      step.0 == Window(w.next, w.next + interval, 0) &&
      step.1 + ClosedReports(step.0, interval, counts, now) == ClosedReports(w, interval, counts, now)
  {
    var w1 := Window(w.next, w.next + interval, 0);
    CrossedAfterWindowEnd(w, interval, now);
    var k := Crossed(w, interval, now);
    var rs := ClosedReports(w, interval, counts, now);
    var rs2 := ClosedReports(w1, interval, counts, now);
    assert |rs| == |rs2| + 1;
    assert rs[0] == BoundaryReport(w, interval, counts, 0);
    forall m | 1 <= m < k
      ensures rs[m] == rs2[m - 1]
    {
      assert w.next + m * interval == w1.next + (m - 1) * interval;
      assert rs2[m - 1] == BoundaryReport(w1, interval, counts, m - 1);
    }
    assert rs == [rs[0]] + rs2;
  }

  /** A step that reaches the window end leaves the closed-form final window as it was. */
  lemma StepToWindowEndWindow(w: Window, interval: int, counts: bool, now: int)
    requires WindowValid(w, interval) && w.time < now && w.next <= now
    ensures var w1 := Window(w.next, w.next + interval, 0);
      WindowValid(w1, interval) &&
      ClosedWindow(w1, interval, counts, now) == ClosedWindow(w, interval, counts, now)
  {
    var w1 := Window(w.next, w.next + interval, 0);
    CrossedAfterWindowEnd(w, interval, now);
    var k := Crossed(w, interval, now);
    var k1 := k - 1;
    if k1 > 0 {
      assert w1.next + k1 * interval == w.next + k * interval;
      assert w1.next + (k1 - 1) * interval == w.next + (k - 1) * interval;
    }
  }

  /** The window end moves by exactly one interval per report. */
  lemma ClosedWindowOnGrid(w: Window, interval: int, counts: bool, now: int)
    requires WindowValid(w, interval) && w.time <= now
    ensures ClosedWindow(w, interval, counts, now).next
            == w.next + |ClosedReports(w, interval, counts, now)| * interval
  {
  }

  /** Exactly one report per window end `w.next + m * interval` lying in
      (w.time, now], stamped with that end, in strictly increasing order. */
  lemma ClosedReportsOnePerBoundary(w: Window, interval: int, counts: bool, now: int)
    requires WindowValid(w, interval) && w.time <= now
    ensures var rs := ClosedReports(w, interval, counts, now);
      (forall m: nat :: w.next + m * interval <= now <==> m < |rs|) &&
      (forall m :: 0 <= m < |rs| ==> rs[m].at == w.next + m * interval) &&
      (forall m :: 0 <= m < |rs| ==> w.time < rs[m].at <= now) &&
      (forall i, j :: 0 <= i < j < |rs| ==> rs[i].at < rs[j].at)
  {
    var rs := ClosedReports(w, interval, counts, now);
    CrossedCountsWindowEnds(w, interval, now);
    forall m | 0 <= m < |rs|
      ensures rs[m].at == w.next + m * interval
      ensures w.time < rs[m].at <= now
    {
      assert rs[m] == BoundaryReport(w, interval, counts, m);
      MulMonotone(0, m, interval);
    }
    forall i, j | 0 <= i < j < |rs|
      ensures rs[i].at < rs[j].at
    {
      MulMonotone(i + 1, j, interval);
    }
  }

  /** Every report carries a run time between nothing and the whole window, so the
      load it stands for lies in [0, 1]. */
  lemma ClosedReportsBounded(w: Window, interval: int, counts: bool, now: int)
    requires WindowValid(w, interval) && w.time <= now
    ensures var rs := ClosedReports(w, interval, counts, now);
      forall m :: 0 <= m < |rs| ==>
        0 <= rs[m].runTime <= interval && 0.0 <= LoadOf(rs[m].runTime, interval) <= 1.0
  {
    var rs := ClosedReports(w, interval, counts, now);
    forall m | 0 <= m < |rs|
      ensures 0 <= rs[m].runTime <= interval
    {
    }
  }

  /** An idle span (or any span on a paused thread) never adds run time: the window
      keeps at most what it had, the first report carries exactly what the window
      had, and every later report carries nothing. */
  lemma IdleAddsNoRunTime(w: Window, interval: int, now: int)
    requires WindowValid(w, interval) && w.time <= now
    ensures ClosedWindow(w, interval, false, now).run <= w.run
    ensures var rs := ClosedReports(w, interval, false, now);
      forall m :: 0 <= m < |rs| ==> rs[m].runTime == if m == 0 then w.run else 0
  {
  }

  /** A running span adds run time equal to its length: what the window had plus the
      span, spread over the reports and the new window. */
  lemma {:induction false} RunningCountsWholeSpan(w: Window, interval: int, now: int)
    requires WindowValid(w, interval) && w.time <= now
    ensures ClosedWindow(w, interval, true, now).run + SumRunTime(ClosedReports(w, interval, true, now))
            == w.run + (now - w.time)
  {
    var rs := ClosedReports(w, interval, true, now);
    var k := |rs|;
    if k > 0 {
      SumRunTimeAllEqual(rs[1..], interval);
      assert (k - 1) * interval + (w.next - w.time) + (now - (w.next + (k - 1) * interval))
             == now - w.time;
    }
  }

  /** Total run time carried by a sequence of reports. */
  function SumRunTime(rs: seq<Report>): int {
    if rs == [] then 0 else rs[0].runTime + SumRunTime(rs[1..])
  }

  lemma {:induction false} SumRunTimeAllEqual(rs: seq<Report>, v: int)
    requires forall m :: 0 <= m < |rs| ==> rs[m].runTime == v
    ensures SumRunTime(rs) == |rs| * v
  {
    if rs != [] {
      SumRunTimeAllEqual(rs[1..], v);
    }
  }

  /** Advancing to an instant before the window end reports nothing and only adds
      the span's run time to the window. */
  lemma BeforeWindowEnd(w: Window, interval: int, counts: bool, now: int)
    requires WindowValid(w, interval) && w.time <= now < w.next
    ensures ClosedReports(w, interval, counts, now) == []
    ensures ClosedWindow(w, interval, counts, now)
            == Window(now, w.next, w.run + Gain(counts, now - w.time))
  {
    assert Crossed(w, interval, now) == 0;
  }

  /** Advancing past exactly one window end reports it once, with the window's run
      time plus the span up to its end, and opens the next window with the rest. */
  lemma PastOneWindowEnd(w: Window, interval: int, counts: bool, now: int)
    requires WindowValid(w, interval) && w.next <= now < w.next + interval
    ensures ClosedReports(w, interval, counts, now)
            == [Report(w.next, w.run + Gain(counts, w.next - w.time))]
    ensures ClosedWindow(w, interval, counts, now)
            == Window(now, w.next + interval, Gain(counts, now - w.next))
  {
    assert Crossed(w, interval, now) == 1 by {
      DivUnique(now - w.next, interval, 0, now - w.next);
    }
    assert ClosedReports(w, interval, counts, now)[0] == BoundaryReport(w, interval, counts, 0);
  }

  /** A task spanning exactly one whole window on an active thread reports load 1. */
  lemma FullWindowReportsFullLoad(w: Window, interval: int)
    requires WindowValid(w, interval) && w.time == w.next - interval && w.run == 0
    ensures ClosedReports(w, interval, true, w.next) == [Report(w.next, interval)]
    ensures LoadOf(interval, interval) == 1.0
  {
    assert Crossed(w, interval, w.next) == 1;
  }

  /** Starting on a window boundary with an empty window, advancing over `n` whole
      windows and `rest` more reports `n` times, at the successive window ends, each
      with a whole window's run time when running (load 1) and none when idle
      (load 0); the window left open holds the run time of the last `rest` units. */
  lemma WindowsFromBoundary(w: Window, interval: int, counts: bool, n: nat, rest: int)
    requires WindowValid(w, interval) && w.time == w.next - interval && w.run == 0
    requires 0 <= rest < interval
    ensures var rs := ClosedReports(w, interval, counts, w.time + n * interval + rest);
      |rs| == n &&
      forall m :: 0 <= m < n ==> rs[m] == Report(w.time + (m + 1) * interval, Gain(counts, interval))
    ensures ClosedWindow(w, interval, counts, w.time + n * interval + rest)
            == Window(w.time + n * interval + rest, w.time + (n + 1) * interval, Gain(counts, rest))
  {
    var now := w.time + n * interval + rest;
    if n > 0 {
      assert now - w.next == (n - 1) * interval + rest;
      DivUnique(now - w.next, interval, n - 1, rest);
      assert Crossed(w, interval, now) == n;
      assert w.next + n * interval == w.time + (n + 1) * interval;
      assert now - (w.next + (n - 1) * interval) == rest;
    } else {
      assert now < w.next;
      assert Crossed(w, interval, now) == 0;
    }
    var rs := ClosedReports(w, interval, counts, now);
    forall m | 0 <= m < n
      ensures rs[m] == Report(w.time + (m + 1) * interval, Gain(counts, interval))
    {
      assert rs[m] == BoundaryReport(w, interval, counts, m);
      assert w.next + m * interval == w.time + (m + 1) * interval;
    }
  }

  /** Advancing to `a` and then to `b` ends in the same window, with the same
      reports in the same order, as advancing to `b` at once: how the span is cut into
      calls does not change what is reported. */
  lemma {:induction false} AdvanceInTwoCalls(w: Window, interval: int, counts: bool, a: int, b: int)
    requires WindowValid(w, interval) && w.time <= a <= b
    ensures var wa := ClosedWindow(w, interval, counts, a);
      ClosedWindow(wa, interval, counts, b) == ClosedWindow(w, interval, counts, b) &&
      ClosedReports(w, interval, counts, a) + ClosedReports(wa, interval, counts, b)
      == ClosedReports(w, interval, counts, b)
    decreases a - w.time
  {
    if a < w.next {
      SplitWithinWindow(w, interval, counts, a, b);
    } else {
      var w1 := Window(w.next, w.next + interval, 0);
      StepToWindowEnd(w, interval, counts, a);
      StepToWindowEndWindow(w, interval, counts, a);
      StepToWindowEnd(w, interval, counts, b);
      StepToWindowEndWindow(w, interval, counts, b);
      AdvanceInTwoCalls(w1, interval, counts, a, b);
      var first := Step(w, interval, counts, a).1;
      assert first == Step(w, interval, counts, b).1;
      assert ClosedReports(w, interval, counts, a) + ClosedReports(ClosedWindow(w, interval, counts, a), interval, counts, b)
             == first + (ClosedReports(w1, interval, counts, a)
                         + ClosedReports(ClosedWindow(w1, interval, counts, a), interval, counts, b));
    }
  }

  /** AdvanceInTwoCalls when `a` is before the window end. */
  lemma SplitWithinWindow(w: Window, interval: int, counts: bool, a: int, b: int)
    requires WindowValid(w, interval) && w.time <= a <= b && a < w.next
    ensures var wa := ClosedWindow(w, interval, counts, a);
      ClosedWindow(wa, interval, counts, b) == ClosedWindow(w, interval, counts, b) &&
      ClosedReports(w, interval, counts, a) + ClosedReports(wa, interval, counts, b)
      == ClosedReports(w, interval, counts, b)
  {
    BeforeWindowEnd(w, interval, counts, a);
    var wa := ClosedWindow(w, interval, counts, a);
    assert Crossed(wa, interval, b) == Crossed(w, interval, b);
    var rs := ClosedReports(w, interval, counts, b);
    var rsa := ClosedReports(wa, interval, counts, b);
    forall m | 0 <= m < |rs|
      ensures rsa[m] == rs[m]
    {
      assert rsa[m] == BoundaryReport(wa, interval, counts, m);
      assert rs[m] == BoundaryReport(w, interval, counts, m);
    }
    assert rsa == rs;
  }

  /** The history of callback invocations a tracker has made up to instant `time`:
      every report is at or before `time` and carries a run time no more than one
      window, and report instants strictly increase. */
  ghost predicate ReportLogValid(log: seq<Report>, interval: int, time: int) {
    (forall i :: 0 <= i < |log| ==> log[i].at <= time && 0 <= log[i].runTime <= interval) &&
    (forall i, j :: 0 <= i < j < |log| ==> log[i].at < log[j].at)
  }

  /** Appending the reports of an advance keeps the history well ordered: new reports
      come strictly after every earlier one and no later than the new clock. */
  lemma ReportLogExtends(log: seq<Report>, w: Window, interval: int, counts: bool, now: int)
    requires WindowValid(w, interval) && w.time <= now
    requires ReportLogValid(log, interval, w.time)
    ensures ReportLogValid(log + ClosedReports(w, interval, counts, now), interval, now)
  {
    var rs := ClosedReports(w, interval, counts, now);
    ClosedReportsOnePerBoundary(w, interval, counts, now);
    ClosedReportsBounded(w, interval, counts, now);
    var all := log + rs;
    forall i, j | 0 <= i < j < |all|
      ensures all[i].at < all[j].at
    {
      if j < |log| {
      } else if i < |log| {
        assert all[j] == rs[j - |log|];
      } else {
        assert all[i] == rs[i - |log|] && all[j] == rs[j - |log|];
      }
    }
  }
}
