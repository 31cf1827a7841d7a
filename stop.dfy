/** The state transition of the `/stop` command: clear the chat's flag if it
    has one, then stamp the last interval of its log with the message time. */
module StopHandler {
  import opened Intervals
  import opened BotState
  import opened StartHandler

  /** `or_insert(SleepInterval::new())` followed by `stop_timer` panics unless
      the chat already has a non-empty log. */
  predicate StopDefined(s: Chats, c: ChatId)
  {
    c in s.logs && |s.logs[c]| > 0
  }

  /** The state after `/stop` in chat `c` at message time `t`, as written:
      the last interval is stamped whether or not it is still open. The
      chat's flag ends up clear, its log stays non-empty, and no other
      chat's flag or log changes. */
  function StopStep(s: Chats, c: ChatId, t: int): (r: Chats)
    requires StopDefined(s, c)
    ensures !Running(r, c) && StopDefined(r, c)
    ensures SameElsewhere(s, r, c)
  {
    Chats(if c in s.inTimer then s.inTimer[c := false] else s.inTimer,
          s.logs[c := Closed(s.logs[c], t)])
  }

  /** After `/stop` the chat's flag is false if it had one and stays absent
      otherwise; the log keeps its length and only its last interval gets
      stop time `t`, keeping its start. */
  lemma StopEffect(s: Chats, c: ChatId, t: int)
    requires StopDefined(s, c)
    ensures c in StopStep(s, c, t).inTimer <==> c in s.inTimer
    ensures !Running(StopStep(s, c, t), c)
    ensures |StopStep(s, c, t).logs[c]| == |s.logs[c]|
    ensures forall i :: 0 <= i < |s.logs[c]| - 1 ==> StopStep(s, c, t).logs[c][i] == s.logs[c][i]
    ensures Last(StopStep(s, c, t).logs[c]) == SleepDuration(Last(s.logs[c]).startedAt, Some(t))
  {
    ClosedStampsLast(s.logs[c], t);
  }

  /** `/stop` keeps the state consistent: the chat's log ends with no open
      interval and its flag is left false or absent. */
  lemma StopKeepsConsistent(s: Chats, c: ChatId, t: int)
    requires Consistent(s) && StopDefined(s, c)
    ensures Consistent(StopStep(s, c, t))
  {
    var s' := StopStep(s, c, t);
    var log := s.logs[c];
    assert AllStarted(log) && OnlyLastOpen(log);
    MutatorsKeepStarts(log, t);
    MutatorsKeepOneOpen(log, t);
    ClosedStampsLast(log, t);
    assert !LastOpen(s', c) && !Running(s', c);
    forall d ensures Running(s', d) <==> LastOpen(s', d) {
      if d != c { assert Running(s', d) == Running(s, d) && LastOpen(s', d) == LastOpen(s, d); }
    }
    forall d | d in s'.logs ensures AllStarted(s'.logs[d]) && OnlyLastOpen(s'.logs[d]) {
      if d != c { assert s'.logs[d] == s.logs[d]; }
    }
  }

  /** `/start` at `t0` then `/stop` at `t1` from an idle chat leaves the flag
      false and a last interval that started at `t0` and stopped at `t1`. */
  lemma StartThenStop(s: Chats, c: ChatId, t0: int, t1: int)
    requires !Running(s, c)
    ensures var s1 := StartStep(s, c, t0).0;
      StopDefined(s1, c) &&
      var s2 := StopStep(s1, c, t1);
      !Running(s2, c) && |s2.logs[c]| == |LogOf(s, c)| + 1 &&
      Last(s2.logs[c]) == SleepDuration(Some(t0), Some(t1))
  {
    StartWhenIdle(s, c, t0);
    var s1 := StartStep(s, c, t0).0;
    OpenedAppendsOne(LogOf(s, c), t0);
    StopEffect(s1, c, t1);
  }

  /** In a chat with no log yet, `/stop` is outside its domain: the source
      inserts an empty log and then panics in `stop_timer`. At start-up no
      chat has a log. */
  lemma StopPanicsBeforeStart(s: Chats, c: ChatId)
    requires c !in s.logs
    ensures !StopDefined(s, c)
    ensures !StopDefined(Initial(), c)
  {
  }

  /** As written, a second `/stop` moves the recorded stop time:
      start at 0, stop at 60000, stop at 120000 leaves the interval {0, 120000}. */
  lemma SecondStopMovesStopTime(c: ChatId)
    ensures StopDefined(StopStep(StartStep(Initial(), c, 0).0, c, 60_000), c)
    ensures StopStep(StopStep(StartStep(Initial(), c, 0).0, c, 60_000), c, 120_000).logs[c]
         == [SleepDuration(Some(0), Some(120_000))]
  {
    var s1 := StartStep(Initial(), c, 0).0;
    assert s1.logs[c] == [OpenAt(0)];
    var s2 := StopStep(s1, c, 60_000);
    assert s2.logs[c] == [SleepDuration(Some(0), Some(60_000))];
  }

  /** The intended `/stop`: clear the flag if present, and close the last
      interval only when it is still open; a chat with no log or no open
      interval is left as it is. */
  function StopStepFixed(s: Chats, c: ChatId, t: int): Chats
  {
    var inTimer := if c in s.inTimer then s.inTimer[c := false] else s.inTimer;
    if c in s.logs && |s.logs[c]| > 0 && Last(s.logs[c]).IsOpen() then
      Chats(inTimer, s.logs[c := Closed(s.logs[c], t)])
    else
      Chats(inTimer, s.logs)
  }

  /** The intended `/stop` never fails, agrees with the source whenever the
      last interval is open, and otherwise leaves every log unchanged. */
  lemma StopFixedEffect(s: Chats, c: ChatId, t: int)
    ensures !Running(StopStepFixed(s, c, t), c)
    ensures c in StopStepFixed(s, c, t).inTimer <==> c in s.inTimer
    ensures StopDefined(s, c) && Last(s.logs[c]).IsOpen() ==> StopStepFixed(s, c, t) == StopStep(s, c, t)
    ensures !(StopDefined(s, c) && Last(s.logs[c]).IsOpen()) ==> StopStepFixed(s, c, t).logs == s.logs
    ensures SameElsewhere(s, StopStepFixed(s, c, t), c)
  {
  }

  /** The intended `/stop` keeps the state consistent. */
  lemma StopFixedKeepsConsistent(s: Chats, c: ChatId, t: int)
    requires Consistent(s)
    ensures Consistent(StopStepFixed(s, c, t))
  {
    var s' := StopStepFixed(s, c, t);
    if StopDefined(s, c) && Last(s.logs[c]).IsOpen() {
      StopKeepsConsistent(s, c, t);
    } else {
      assert s'.logs == s.logs && !LastOpen(s', c) && !Running(s', c);
      forall d ensures Running(s', d) <==> LastOpen(s', d) {
        if d != c { assert Running(s', d) == Running(s, d); }
      }
    }
  }

  /** With the intended `/stop`, a second stop keeps the first stop time. */
  lemma SecondStopFixedKeepsStopTime(s: Chats, c: ChatId, t0: int, t1: int, t2: int)
    requires !Running(s, c)
    ensures StopStepFixed(StopStepFixed(StartStep(s, c, t0).0, c, t1), c, t2)
         == StopStepFixed(StartStep(s, c, t0).0, c, t1)
    ensures Last(StopStepFixed(StartStep(s, c, t0).0, c, t1).logs[c]) == SleepDuration(Some(t0), Some(t1))
  {
    var s1 := StartStep(s, c, t0).0;
    assert s1.logs[c] == Opened(LogOf(s, c), t0);
    var s2 := StopStepFixed(s1, c, t1);
    ClosedStampsLast(s1.logs[c], t1);
    assert !Last(s2.logs[c]).IsOpen();
    assert !Running(s2, c);
  }
}
