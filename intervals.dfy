/** The per-chat interval log: `SleepDuration`, `SleepInterval` and its two
    mutators `start_timer` and `stop_timer`. Timestamps are epoch milliseconds. */
module Intervals {

  datatype Option<+T> = None | Some(value: T)

  /** One sleep interval. Both ends are optional in the record; an absent
      `stoppedAt` means the timer for this interval is still running. */
  datatype SleepDuration = SleepDuration(startedAt: Option<int>, stoppedAt: Option<int>)
  {
    predicate IsOpen() { stoppedAt.None? }
  }

  /** The record `start_timer(time)` pushes. */
  function OpenAt(time: int): SleepDuration
  {
    SleepDuration(Some(time), None)
  }

  function Last(log: seq<SleepDuration>): SleepDuration
    requires |log| > 0
  {
    log[|log| - 1]
  }

  /** The log after `start_timer(time)`. */
  function Opened(log: seq<SleepDuration>, time: int): seq<SleepDuration>
  {
    log + [OpenAt(time)]
  }

  /** The log after `stop_timer(time)`; `last_mut().unwrap()` makes it
      undefined on an empty log. */
  function Closed(log: seq<SleepDuration>, time: int): seq<SleepDuration>
    requires |log| > 0
  {
    log[..|log| - 1] + [Last(log).(stoppedAt := Some(time))]
  }

  /** Every interval of the log carries its start time. */
  ghost predicate AllStarted(log: seq<SleepDuration>)
  {
    forall i :: 0 <= i < |log| ==> log[i].startedAt.Some?
  }

  /** No interval of the log is open except possibly the last. */
  ghost predicate OnlyLastOpen(log: seq<SleepDuration>)
  {
    forall i :: 0 <= i < |log| - 1 ==> !log[i].IsOpen()
  }

  /** The owning record of one chat's log. */
  class SleepInterval {
    var datesArr: seq<SleepDuration>

    /** `SleepInterval::new()`: an empty log. */
    constructor ()
      ensures datesArr == []
    {
      datesArr := [];
    }

    /** `start_timer`: pushes an open interval stamped `time`. */
    method StartTimer(time: int)
      modifies this
      ensures datesArr == Opened(old(datesArr), time)
    {
      datesArr := datesArr + [SleepDuration(Some(time), None)];
    }

    /** `stop_timer`: stamps the last interval with `time`, open or not. */
    method StopTimer(time: int)
      requires |datesArr| > 0
      modifies this
      ensures datesArr == Closed(old(datesArr), time)
    {
      var n := |datesArr|;
      datesArr := datesArr[n - 1 := datesArr[n - 1].(stoppedAt := Some(time))];
    }
  }

  /** `start_timer` grows the log by exactly one open interval stamped `time`
      and leaves every earlier entry as it was. */
  lemma OpenedAppendsOne(log: seq<SleepDuration>, time: int)
    ensures |Opened(log, time)| == |log| + 1
    ensures forall i :: 0 <= i < |log| ==> Opened(log, time)[i] == log[i]
    ensures Last(Opened(log, time)).startedAt == Some(time)
    ensures Last(Opened(log, time)).IsOpen()
  {
  }

  /** `stop_timer` keeps the length, every entry but the last, and the last
      entry's start; the last entry's stop becomes `time`. */
  lemma ClosedStampsLast(log: seq<SleepDuration>, time: int)
    requires |log| > 0
    ensures |Closed(log, time)| == |log|
    ensures forall i :: 0 <= i < |log| - 1 ==> Closed(log, time)[i] == log[i]
    ensures Last(Closed(log, time)) == SleepDuration(Last(log).startedAt, Some(time))
  {
  }

  /** `stop_timer` on an already closed last interval is not a no-op: it
      moves the stop time whenever `time` differs from the recorded one. */
  lemma ClosedOverwritesStop(log: seq<SleepDuration>, time: int)
    requires |log| > 0 && !Last(log).IsOpen() && Last(log).stoppedAt != Some(time)
    ensures Closed(log, time) != log
  {
    assert Last(Closed(log, time)) != Last(log);
  }

  /** Both mutators keep every interval's start present. */
  lemma MutatorsKeepStarts(log: seq<SleepDuration>, time: int)
    requires AllStarted(log)
    ensures AllStarted(Opened(log, time))
    ensures |log| > 0 ==> AllStarted(Closed(log, time))
  {
    var o := Opened(log, time);
    forall i | 0 <= i < |o| ensures o[i].startedAt.Some? {
      if i < |log| { assert o[i] == log[i]; }
    }
    if |log| > 0 {
      var c := Closed(log, time);
      forall i | 0 <= i < |c| ensures c[i].startedAt.Some? {
        if i < |log| - 1 { assert c[i] == log[i]; }
      }
    }
  }

  /** Starting on a log with no open interval leaves exactly the new last
      one open; stopping a log whose only open interval is the last leaves
      none open. */
  lemma MutatorsKeepOneOpen(log: seq<SleepDuration>, time: int)
    requires OnlyLastOpen(log)
    ensures (|log| == 0 || !Last(log).IsOpen()) ==> OnlyLastOpen(Opened(log, time))
    ensures |log| > 0 ==> forall i :: 0 <= i < |log| ==> !Closed(log, time)[i].IsOpen()
  {
    var o := Opened(log, time);
    if |log| == 0 || !Last(log).IsOpen() {
      forall i | 0 <= i < |o| - 1 ensures !o[i].IsOpen() {
        assert o[i] == log[i];
      }
    }
    if |log| > 0 {
      var c := Closed(log, time);
      forall i | 0 <= i < |log| ensures !c[i].IsOpen() {
        if i < |log| - 1 { assert c[i] == log[i]; }
      }
    }
  }
}
