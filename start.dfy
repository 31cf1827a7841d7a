/** The state transition of the `/start` command: a check-and-set on the
    chat's flag followed, when the flag was not set, by an append to its log. */
module StartHandler {
  import opened Intervals
  import opened BotState

  /** What the reply reports: the new start time, or the start of the
      interval that is already running. */
  datatype StartOutcome = Started(at: int) | AlreadyStarted(since: int)

  /** When the flag is already set, the handler unwraps the chat's log, its
      last interval and that interval's start; all three must be there. */
  predicate StartDefined(s: Chats, c: ChatId)
  {
    Running(s, c) ==> c in s.logs && |s.logs[c]| > 0 && Last(s.logs[c]).startedAt.Some?
  }

  /** The new state and outcome of `/start` in chat `c` at message time `t`.
      Whichever branch runs, the chat's flag ends up set, a further `/start`
      cannot panic, and no other chat's flag or log changes. */
  function StartStep(s: Chats, c: ChatId, t: int): (r: (Chats, StartOutcome))
    requires StartDefined(s, c)
    ensures Running(r.0, c) && StartDefined(r.0, c)
    ensures SameElsewhere(s, r.0, c)
  {
    if Running(s, c) then
      (s, AlreadyStarted(Last(s.logs[c]).startedAt.value))
    else
      (Chats(s.inTimer[c := true], s.logs[c := Opened(LogOf(s, c), t)]), Started(t))
  }

  /** From a flag that is absent or false, `/start` sets the flag and appends
      exactly one open interval stamped `t`, to an empty log if there was none. */
  lemma StartWhenIdle(s: Chats, c: ChatId, t: int)
    requires !Running(s, c)
    ensures StartStep(s, c, t).1 == Started(t)
    ensures Running(StartStep(s, c, t).0, c)
    ensures c in StartStep(s, c, t).0.logs
    ensures StartStep(s, c, t).0.logs[c] == LogOf(s, c) + [SleepDuration(Some(t), None)]
  {
  }

  /** With the flag set, `/start` changes neither map and reports the start
      of the chat's last interval. */
  lemma StartWhenRunning(s: Chats, c: ChatId, t: int)
    requires Running(s, c) && StartDefined(s, c)
    ensures StartStep(s, c, t).0 == s
    ensures StartStep(s, c, t).1 == AlreadyStarted(Last(s.logs[c]).startedAt.value)
  {
  }

  /** In a consistent state the already-running branch never panics. */
  lemma ConsistentStartDefined(s: Chats, c: ChatId)
    requires Consistent(s)
    ensures StartDefined(s, c)
  {
    if Running(s, c) {
      assert AllStarted(s.logs[c]);
      assert Last(s.logs[c]) == s.logs[c][|s.logs[c]| - 1];
    }
  }

  /** `/start` keeps the state consistent: from idle the chat's log had no
      open interval, so the one it appends is the only one, and the flag it
      sets matches it. */
  lemma StartKeepsConsistent(s: Chats, c: ChatId, t: int)
    requires Consistent(s)
    ensures StartDefined(s, c)
    ensures Consistent(StartStep(s, c, t).0)
  {
    ConsistentStartDefined(s, c);
    if !Running(s, c) {
      var s' := StartStep(s, c, t).0;
      var log := LogOf(s, c);
      assert AllStarted(log) && OnlyLastOpen(log);
      assert !LastOpen(s, c);
      MutatorsKeepStarts(log, t);
      MutatorsKeepOneOpen(log, t);
      OpenedAppendsOne(log, t);
      assert LastOpen(s', c);
      forall d ensures Running(s', d) <==> LastOpen(s', d) {
        if d != c { assert Running(s', d) == Running(s, d) && LastOpen(s', d) == LastOpen(s, d); }
      }
      forall d | d in s'.logs ensures AllStarted(s'.logs[d]) && OnlyLastOpen(s'.logs[d]) {
        if d != c { assert s'.logs[d] == s.logs[d]; }
      }
    }
  }

  /** Two `/start`s in a row append at most one interval: the second always
      reports `AlreadyStarted` with the start the first one recorded, and
      changes nothing. */
  lemma DoubleStart(s: Chats, c: ChatId, t1: int, t2: int)
    requires StartDefined(s, c)
    ensures StartDefined(StartStep(s, c, t1).0, c)
    ensures StartStep(StartStep(s, c, t1).0, c, t2).0 == StartStep(s, c, t1).0
    ensures Running(s, c) ==>
      StartStep(StartStep(s, c, t1).0, c, t2).1 == AlreadyStarted(Last(s.logs[c]).startedAt.value)
    ensures !Running(s, c) ==>
      StartStep(StartStep(s, c, t1).0, c, t2).1 == AlreadyStarted(t1)
    ensures !Running(s, c) ==>
      |StartStep(StartStep(s, c, t1).0, c, t2).0.logs[c]| == |LogOf(s, c)| + 1
  {
    var s1 := StartStep(s, c, t1).0;
    if !Running(s, c) {
      assert s1.logs[c] == Opened(LogOf(s, c), t1);
      assert Last(s1.logs[c]) == OpenAt(t1);
    }
  }
}
