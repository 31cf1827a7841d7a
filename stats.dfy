/** The `/stats` report: one record per interval of the chat's log, in log
    order, and the total time of the closed intervals as hours and minutes. */
module StatsHandler {
  import opened Intervals
  import opened Durations

  /** One record of the report: a closed interval with its start, stop and
      time spent as whole hours and whole minutes, or an open interval with
      its start only. */
  datatype Line =
    | ClosedLine(started: int, stopped: int, hours: int, minutes: int)
    | OpenLine(started: int)

  /** The report: its records, then the closed-interval total as `H:M`. */
  datatype Report = Report(lines: seq<Line>, totalHours: int, totalMinutes: int)

  /** Milliseconds an interval adds to the total: its length when closed,
      nothing when open. */
  function Spent(d: SleepDuration): int
    requires d.startedAt.Some?
  {
    if d.stoppedAt.Some? then d.stoppedAt.value - d.startedAt.value else 0
  }

  /** The record the loop body emits for one interval. */
  function LineOf(d: SleepDuration): Line
    requires d.startedAt.Some?
  {
    if d.stoppedAt.Some? then
      ClosedLine(d.startedAt.value, d.stoppedAt.value, NumHours(Spent(d)), NumMinutes(Spent(d)))
    else
      OpenLine(d.startedAt.value)
  }

  lemma AllStartedPrefix(log: seq<SleepDuration>, n: nat)
    requires AllStarted(log) && n <= |log|
    ensures AllStarted(log[..n])
  {
    assert forall i :: 0 <= i < n ==> log[..n][i] == log[i];
  }

  /** The records of a log, one per interval, in log order. */
  function Lines(log: seq<SleepDuration>): seq<Line>
    requires AllStarted(log)
  {
    if log == [] then []
    else
      AllStartedPrefix(log, |log| - 1);
      Lines(log[..|log| - 1]) + [LineOf(Last(log))]
  }

  /** The total in milliseconds: the sum of `Spent` over the log. */
  function ClosedSum(log: seq<SleepDuration>): int
    requires AllStarted(log)
  {
    if log == [] then 0
    else
      AllStartedPrefix(log, |log| - 1);
      ClosedSum(log[..|log| - 1]) + Spent(Last(log))
  }

  /** The report for a log: its records and its total truncated to whole
      minutes, split with Rust's `/ 60` and `% 60`. */
  function StatsReport(log: seq<SleepDuration>): (r: Report)
    requires AllStarted(log)
    ensures |r.lines| == |log|
    ensures r.totalHours * 60 + r.totalMinutes == Quot(ClosedSum(log), 60_000)
    ensures ClosedSum(log) >= 0 ==> 0 <= r.totalMinutes < 60
    ensures ClosedSum(log) < 0 ==> -60 < r.totalMinutes <= 0
  {
    LinesAt(log);
    var minutes := NumMinutes(ClosedSum(log));
    Report(Lines(log), Quot(minutes, 60), Rem(minutes, 60))
  }

  /** Every closed interval stops no earlier than it starts. */
  ghost predicate StopsAfterStarts(log: seq<SleepDuration>)
  {
    forall i :: 0 <= i < |log| && log[i].stoppedAt.Some? ==>
      log[i].startedAt.Some? && log[i].startedAt.value <= log[i].stoppedAt.value
  }

  /** The sum of each closed interval's own whole-minute count. */
  function LineMinutesSum(log: seq<SleepDuration>): int
    requires AllStarted(log)
  {
    if log == [] then 0
    else
      AllStartedPrefix(log, |log| - 1);
      LineMinutesSum(log[..|log| - 1]) + NumMinutes(Spent(Last(log)))
  }

  /** The loop of `handle`: walk the log in order, emit one record per
      interval and add each closed interval's length to the total. */
  method Summarize(log: seq<SleepDuration>) returns (r: Report)
    requires AllStarted(log)
    ensures r == StatsReport(log)
  {
    var lines: seq<Line> := [];
    var total := 0;
    var i := 0;
    while i < |log|
      invariant 0 <= i <= |log|
      invariant AllStarted(log[..i])
      invariant lines == Lines(log[..i])
      invariant total == ClosedSum(log[..i])
    {
      var d := log[i];
      assert log[..i + 1][..i] == log[..i];
      AllStartedPrefix(log, i + 1);
      if d.stoppedAt.Some? {
        var delta := d.stoppedAt.value - d.startedAt.value;
        lines := lines + [ClosedLine(d.startedAt.value, d.stoppedAt.value, NumHours(delta), NumMinutes(delta))];
        total := total + delta;
      } else {
        lines := lines + [OpenLine(d.startedAt.value)];
      }
      i := i + 1;
    }
    assert log[..i] == log;
    var minutes := NumMinutes(total);
    r := Report(lines, minutes / 60, minutes % 60);
    if minutes < 0 {
      r := r.(totalHours := -((-minutes) / 60), totalMinutes := -((-minutes) % 60));
    }
  }

  /** The records correspond one to one, in order, to the log's intervals. */
  lemma {:induction false} LinesAt(log: seq<SleepDuration>)
    requires AllStarted(log)
    ensures |Lines(log)| == |log|
    ensures forall i :: 0 <= i < |log| ==> Lines(log)[i] == LineOf(log[i])
  {
    if log != [] {
      var init := log[..|log| - 1];
      AllStartedPrefix(log, |log| - 1);
      LinesAt(init);
      forall i | 0 <= i < |log| ensures Lines(log)[i] == LineOf(log[i]) {
        if i < |log| - 1 { assert init[i] == log[i]; }
      }
    }
  }

  /** The report has one record per interval, in log order: a closed
      interval gives its start, its stop, and the whole hours and whole
      minutes of its length; an open one gives its start only. */
  lemma ReportRecords(log: seq<SleepDuration>)
    requires AllStarted(log)
    ensures var r := StatsReport(log);
      |r.lines| == |log| &&
      (forall i :: 0 <= i < |log| ==> r.lines[i].started == log[i].startedAt.value) &&
      (forall i :: 0 <= i < |log| ==> (r.lines[i].ClosedLine? <==> log[i].stoppedAt.Some?)) &&
      (forall i :: 0 <= i < |log| && log[i].stoppedAt.Some? ==>
         r.lines[i].stopped == log[i].stoppedAt.value &&
         r.lines[i].hours == Quot(log[i].stoppedAt.value - log[i].startedAt.value, 3_600_000) &&
         r.lines[i].minutes == Quot(log[i].stoppedAt.value - log[i].startedAt.value, 60_000))
  {
    LinesAt(log);
  }

  /** Appending logs adds their totals. */
  lemma {:induction false} ClosedSumAppend(a: seq<SleepDuration>, b: seq<SleepDuration>)
    requires AllStarted(a) && AllStarted(b)
    ensures AllStarted(a + b)
    ensures ClosedSum(a + b) == ClosedSum(a) + ClosedSum(b)
  {
    assert forall i :: 0 <= i < |a| ==> (a + b)[i] == a[i];
    assert forall i :: |a| <= i < |a + b| ==> (a + b)[i] == b[i - |a|];
    if b == [] {
      assert a + b == a;
    } else {
      var init := b[..|b| - 1];
      AllStartedPrefix(b, |b| - 1);
      ClosedSumAppend(a, init);
      assert (a + b)[..|a + b| - 1] == a + init;
      assert Last(a + b) == Last(b);
    }
  }

  /** Only closed intervals count: a started timer adds nothing to the
      total, and stopping it at `t` adds `t` minus its start. */
  lemma ClosedSumStartStop(log: seq<SleepDuration>, t0: int, t1: int)
    requires AllStarted(log)
    ensures AllStarted(Opened(log, t0))
    ensures ClosedSum(Opened(log, t0)) == ClosedSum(log)
    ensures AllStarted(Closed(Opened(log, t0), t1))
    ensures ClosedSum(Closed(Opened(log, t0), t1)) == ClosedSum(log) + (t1 - t0)
  {
    MutatorsKeepStarts(log, t0);
    MutatorsKeepStarts(Opened(log, t0), t1);
    assert Opened(log, t0)[..|log|] == log;
    assert Closed(Opened(log, t0), t1)[..|log|] == log;
  }

  /** With stops after starts, the total is never negative. */
  lemma {:induction false} ClosedSumNonNegative(log: seq<SleepDuration>)
    requires AllStarted(log) && StopsAfterStarts(log)
    ensures ClosedSum(log) >= 0
  {
    if log != [] {
      var init := log[..|log| - 1];
      AllStartedPrefix(log, |log| - 1);
      assert forall i :: 0 <= i < |init| ==> init[i] == log[i];
      ClosedSumNonNegative(init);
      assert Last(log) == log[|log| - 1];
    }
  }

  /** The total is truncated once, after summing, so its minute count is at
      least the sum of the per-interval minute counts. */
  lemma {:induction false} TotalMinutesAtLeastLineMinutes(log: seq<SleepDuration>)
    requires AllStarted(log) && StopsAfterStarts(log)
    ensures NumMinutes(ClosedSum(log)) >= LineMinutesSum(log)
  {
    if log != [] {
      var init := log[..|log| - 1];
      AllStartedPrefix(log, |log| - 1);
      assert forall i :: 0 <= i < |init| ==> init[i] == log[i];
      TotalMinutesAtLeastLineMinutes(init);
      ClosedSumNonNegative(init);
      assert Last(log) == log[|log| - 1];
      assert Spent(Last(log)) >= 0;
      MinutesSuperadditive(ClosedSum(init), Spent(Last(log)));
    }
  }

  /** An empty log gives no records and a total of 0:0. */
  lemma EmptyLogReport()
    ensures StatsReport([]) == Report([], 0, 0)
  {
  }

  /** A two-hour interval is reported as `2:120`: whole hours, then the
      whole-minute count of the same delta, not minutes past the hour. */
  lemma TwoHourIntervalLine(start: int)
    ensures LineOf(SleepDuration(Some(start), Some(start + 7_200_000)))
         == ClosedLine(start, start + 7_200_000, 2, 120)
  {
  }

  /** Closed intervals of 125 and 35 minutes total `2:40`. */
  lemma AggregateTwoIntervals(t0: int, t2: int)
    ensures var log := [SleepDuration(Some(t0), Some(t0 + 125 * 60_000)),
                        SleepDuration(Some(t2), Some(t2 + 35 * 60_000))];
      AllStarted(log) && StatsReport(log).totalHours == 2 && StatsReport(log).totalMinutes == 40
  {
    var log := [SleepDuration(Some(t0), Some(t0 + 125 * 60_000)),
                SleepDuration(Some(t2), Some(t2 + 35 * 60_000))];
    assert log[..1][..0] == [];
    assert ClosedSum(log[..1]) == 125 * 60_000;
    assert ClosedSum(log) == 160 * 60_000;
  }
}
