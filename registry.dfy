/** The two shared maps the command handlers hold, `in_timer` and `states`,
    and the three handlers that act on them. Each handler call is one step. */
module Timers {
  import opened Intervals
  import opened BotState
  import opened StartHandler
  import opened StopHandler
  import opened StatsHandler

  class Registry {
    /** The running flag per chat. */
    var inTimer: map<ChatId, bool>
    /** The interval log per chat; each chat owns its own log object. */
    var states: map<ChatId, SleepInterval>
    /** The contents of each chat's log object. */
    ghost var logs: map<ChatId, seq<SleepDuration>>

    /** No two chats share a log object, and `logs` holds what each log
        object contains. */
    ghost predicate Valid()
      reads this, states.Values
    {
      states.Keys == logs.Keys
      && (forall c :: c in states ==> states[c].datesArr == logs[c])
      && (forall c1, c2 :: c1 in states && c2 in states && c1 != c2 ==> states[c1] != states[c2])
    }

    /** The value of both maps. */
    ghost function Model(): Chats
      reads this
    {
      Chats(inTimer, logs)
    }

    /** Both maps start empty. */
    constructor ()
      ensures Valid() && Model() == Initial()
    {
      inTimer := map[];
      states := map[];
      logs := map[];
    }

    /** `states.entry(c).or_insert(SleepInterval::new())`: the chat gets an
        empty log object of its own unless it already has one. */
    method EnsureLog(c: ChatId)
      requires Valid()
      modifies this
      ensures Valid() && inTimer == old(inTimer)
      ensures c in states && fresh(states.Values - old(states.Values))
      ensures logs == old(logs)[c := LogOf(old(Model()), c)]
    {
      if c !in states {
        var log := new SleepInterval();
        assert forall d :: d in states ==> states[d] != log;
        states := states[c := log];
        logs := logs[c := []];
      }
    }

    /** `states.entry(c).or_insert(SleepInterval::new()).start_timer(t)`. */
    method OpenInterval(c: ChatId, t: int)
      requires Valid()
      modifies this, states.Values
      ensures Valid() && inTimer == old(inTimer)
      ensures fresh(states.Values - old(states.Values))
      ensures logs == old(logs)[c := Opened(LogOf(old(Model()), c), t)]
    {
      EnsureLog(c);
      var log := states[c];
      log.StartTimer(t);
      logs := logs[c := log.datesArr];
    }

    /** `states.entry(c).or_insert(..).stop_timer(t)` on a chat that has a
        non-empty log. */
    method CloseInterval(c: ChatId, t: int)
      requires Valid() && c in logs && |logs[c]| > 0
      modifies this, states[c]
      ensures Valid() && inTimer == old(inTimer) && states == old(states)
      ensures logs == old(logs)[c := Closed(old(logs)[c], t)]
    {
      var log := states[c];
      log.StopTimer(t);
      logs := logs[c := log.datesArr];
    }

    /** `StartCommandHandler::handle`: check-and-set the flag; if it was
        not set, append an open interval stamped `t` to the chat's log,
        creating the log if needed. */
    method Start(c: ChatId, t: int) returns (outcome: StartOutcome)
      requires Valid() && StartDefined(Model(), c)
      modifies this, states.Values
      ensures Valid()
      ensures fresh(states.Values - old(states.Values))
      ensures (Model(), outcome) == StartStep(old(Model()), c, t)
    {
      var startedAlready := false;
      if c in inTimer && inTimer[c] {
        startedAlready := true;
      } else {
        inTimer := inTimer[c := true];
      }
      if startedAlready {
        var log := states[c].datesArr;
        outcome := AlreadyStarted(log[|log| - 1].startedAt.value);
      } else {
        OpenInterval(c, t);
        outcome := Started(t);
      }
    }

    /** `StopCommandHandler::handle`: clear the flag if the chat has one,
        then stamp the last interval of the chat's log with `t`. */
    method Stop(c: ChatId, t: int)
      requires Valid() && StopDefined(Model(), c)
      modifies this, states.Values
      ensures Valid() && states == old(states)
      ensures Model() == StopStep(old(Model()), c, t)
    {
      if c in inTimer {
        inTimer := inTimer[c := false];
      }
      CloseInterval(c, t);
    }

    /** The intended `/stop`: never fails, and closes the last interval only
        while it is open. */
    method StopFixed(c: ChatId, t: int)
      requires Valid()
      modifies this, states.Values
      ensures Valid() && states == old(states)
      ensures Model() == StopStepFixed(old(Model()), c, t)
    {
      if c in inTimer {
        inTimer := inTimer[c := false];
      }
      if c in states {
        var n := |states[c].datesArr|;
        if n > 0 && states[c].datesArr[n - 1].IsOpen() {
          CloseInterval(c, t);
        }
      }
    }

    /** `StatsCommandHandler::handle`: reads the chat's log, which must
        exist, and changes nothing. */
    method Stats(c: ChatId) returns (r: Report)
      requires c in states && AllStarted(states[c].datesArr)
      ensures r == StatsReport(states[c].datesArr)
    {
      r := Summarize(states[c].datesArr);
    }

    /** The intended `/stats`: a chat with no log gets the empty report. */
    method StatsOrEmpty(c: ChatId) returns (r: Report)
      requires c in states ==> AllStarted(states[c].datesArr)
      ensures c !in states ==> r == Report([], 0, 0)
      ensures c in states ==> r == StatsReport(states[c].datesArr)
    {
      var log := if c in states then states[c].datesArr else [];
      r := Summarize(log);
      EmptyLogReport();
    }
  }

  /** `/stats` panics for a chat that never sent `/start`: no chat has a log
      at start-up, a command in another chat `d` never creates one for `c`,
      and `/stop` in `c` itself panics before completing. */
  lemma StatsPanicsBeforeStart(s: Chats, c: ChatId, d: ChatId, t: int)
    requires c !in s.logs && d != c
    ensures c !in Initial().logs
    ensures StartDefined(s, d) ==> c !in StartStep(s, d, t).0.logs
    ensures StopDefined(s, d) ==> c !in StopStep(s, d, t).logs
    ensures c !in StopStepFixed(s, d, t).logs
    ensures !StopDefined(s, c)
  {
  }

  /** Start at `t0`, stop at `t1`, start at `t2`, stop at `t3` in a new chat
      leave two closed intervals in that order, the flag cleared, and a
      total of `(t1 - t0) + (t3 - t2)` milliseconds. */
  lemma TwoSessions(c: ChatId, t0: int, t1: int, t2: int, t3: int)
    ensures var s1 := StartStep(Initial(), c, t0).0;
      StopDefined(s1, c) &&
      var s2 := StopStep(s1, c, t1);
      StartDefined(s2, c) &&
      var s3 := StartStep(s2, c, t2).0;
      StopDefined(s3, c) &&
      var s4 := StopStep(s3, c, t3);
      !Running(s4, c) &&
      s4.logs[c] == [SleepDuration(Some(t0), Some(t1)), SleepDuration(Some(t2), Some(t3))] &&
      AllStarted(s4.logs[c]) &&
      ClosedSum(s4.logs[c]) == (t1 - t0) + (t3 - t2)
  {
    var s1 := StartStep(Initial(), c, t0).0;
    assert s1.logs[c] == [OpenAt(t0)];
    var s2 := StopStep(s1, c, t1);
    var first := SleepDuration(Some(t0), Some(t1));
    assert s2.logs[c] == [first];
    assert !Running(s2, c);
    var s3 := StartStep(s2, c, t2).0;
    assert s3.logs[c] == [first, OpenAt(t2)];
    var s4 := StopStep(s3, c, t3);
    assert s4.logs[c] == [first, SleepDuration(Some(t2), Some(t3))];
    ClosedSumStartStop([first], t2, t3);
    assert [first][..0] == [];
    assert ClosedSum([first]) == t1 - t0;
  }

  /** The three steps of `Session` on the abstract state: start, start
      again, stop, in a new chat. */
  lemma SessionTrace(c: ChatId, t0: int, t1: int)
    ensures StartStep(Initial(), c, t0) == (Chats(map[c := true], map[c := [OpenAt(t0)]]), Started(t0))
    ensures StartDefined(Chats(map[c := true], map[c := [OpenAt(t0)]]), c)
    ensures StartStep(Chats(map[c := true], map[c := [OpenAt(t0)]]), c, t1)
         == (Chats(map[c := true], map[c := [OpenAt(t0)]]), AlreadyStarted(t0))
    ensures StopDefined(Chats(map[c := true], map[c := [OpenAt(t0)]]), c)
    ensures StopStep(Chats(map[c := true], map[c := [OpenAt(t0)]]), c, t1)
         == Chats(map[c := false], map[c := [SleepDuration(Some(t0), Some(t1))]])
  {
    assert Opened([], t0) == [OpenAt(t0)];
    assert Closed([OpenAt(t0)], t1) == [SleepDuration(Some(t0), Some(t1))];
  }

  /** What a caller can conclude from the contracts alone: a second
      `/start` reports the first one's start time. */
  method StartTwice(c: ChatId, t0: int, t1: int)
  {
    SessionTrace(c, t0, t1);
    var r := new Registry();
    var o1 := r.Start(c, t0);
    assert o1 == Started(t0);
    var o2 := r.Start(c, t1);
    assert o2 == AlreadyStarted(t0);
  }

  /** What a caller can conclude from the contracts alone: `/start` then
      `/stop` leave one closed interval, and another chat still has no log. */
  method Session(c: ChatId, other: ChatId, t0: int, t1: int)
    requires c != other
  {
    SessionTrace(c, t0, t1);
    var r := new Registry();
    var o1 := r.Start(c, t0);
    r.Stop(c, t1);
    assert r.Model().logs == map[c := [SleepDuration(Some(t0), Some(t1))]];
    assert other !in r.Model().logs;
    var report := r.StatsOrEmpty(other);
    assert report == Report([], 0, 0);
  }
}
