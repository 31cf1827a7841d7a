/** The shared timer state: the `in_timer` flag map and the `states` log map,
    both keyed by chat, seen as one value. */
module BotState {
  import opened Intervals

  /** Telegram's chat identifier. */
  datatype ChatId = ChatId(id: int)

  /** `inTimer` is the running flag per chat; `logs` the interval log per chat. */
  datatype Chats = Chats(inTimer: map<ChatId, bool>, logs: map<ChatId, seq<SleepDuration>>)

  /** The state at start-up: both maps empty. */
  function Initial(): Chats
  {
    Chats(map[], map[])
  }

  /** The chat's flag is present and true. */
  predicate Running(s: Chats, c: ChatId)
  {
    c in s.inTimer && s.inTimer[c]
  }

  /** The chat's log, or the empty log `or_insert(SleepInterval::new())` would create. */
  function LogOf(s: Chats, c: ChatId): seq<SleepDuration>
  {
    if c in s.logs then s.logs[c] else []
  }

  /** The chat's log ends in an open interval. */
  predicate LastOpen(s: Chats, c: ChatId)
  {
    c in s.logs && |s.logs[c]| > 0 && Last(s.logs[c]).IsOpen()
  }

  /** What the handlers rely on between calls: the flag is set exactly when
      the chat's log ends in an open interval, no other interval is open,
      and every logged interval has a start. */
  ghost predicate Consistent(s: Chats)
  {
    (forall c :: Running(s, c) <==> LastOpen(s, c))
    && (forall c :: c in s.logs ==> OnlyLastOpen(s.logs[c]))
    && (forall c :: c in s.logs ==> AllStarted(s.logs[c]))
  }

  /** Every chat other than `c` has the same entries, or the same absence,
      in both maps of `s` and `t`. */
  ghost predicate SameElsewhere(s: Chats, t: Chats, c: ChatId)
  {
    (forall d :: d != c ==> (d in s.inTimer <==> d in t.inTimer))
    && (forall d :: d != c && d in s.inTimer ==> s.inTimer[d] == t.inTimer[d])
    && (forall d :: d != c ==> (d in s.logs <==> d in t.logs))
    && (forall d :: d != c && d in s.logs ==> s.logs[d] == t.logs[d])
  }

  /** The start-up state is consistent. */
  lemma InitialConsistent()
    ensures Consistent(Initial())
  {
  }
}
