/** SET: upsert a record, with an optional expiry given in seconds or milliseconds. */
module SetCmd {
  import opened Wrappers
  import opened Store

  /** The expiry instant a SET attaches: seconds take precedence over milliseconds. */
  function ExpiryOf(now: nat, secs: Option<nat>, millis: Option<nat>): Option<nat> {
    if secs.Some? then Some(now + 1000 * secs.value)
    else if millis.Some? then Some(now + millis.value)
    else None
  }

  /** `SetCommand::execute`. */
  function Set(s: Store, key: string, value: string, secs: Option<nat>, millis: Option<nat>, now: nat): (r: Step)
    ensures r.reply == Ok
    ensures r.store.Keys == s.Keys + {key}
    ensures OnlyKeyChanged(s, r.store, key)
    ensures r.store[key].value == value
    ensures secs.Some? ==> r.store[key].expireAt == Some(now + 1000 * secs.value)
    ensures secs.None? && millis.Some? ==> r.store[key].expireAt == Some(now + millis.value)
    ensures secs.None? && millis.None? ==> r.store[key].expireAt.None?
  {
    Step(Ok, s[key := Record(value, ExpiryOf(now, secs, millis))])
  }

  /** Issuing the same SET twice at the same instant leaves the store as one SET does. */
  lemma SetIdempotent(s: Store, key: string, value: string, secs: Option<nat>, millis: Option<nat>, now: nat)
    ensures var once := Set(s, key, value, secs, millis, now);
            Set(once.store, key, value, secs, millis, now) == once
  {
  }
}
