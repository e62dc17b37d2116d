/** EXPIRE: attach or replace the expiry of an existing key. */
module ExpireCmd {
  import opened Wrappers
  import opened Store

  /** `ExpireCommand::execute`; `seconds` has already passed the `u64` check. */
  function Expire(s: Store, key: string, seconds: nat, now: nat): (r: Step)
    ensures r.store.Keys == s.Keys
    ensures OnlyKeyChanged(s, r.store, key)
    ensures key !in s ==> r == Step(Error(NoSuchKey), s)
    ensures key in s ==> (&& r.reply == Ok
                          && r.store[key].value == s[key].value
                          && r.store[key].expireAt == Some(now + 1000 * seconds))
  {
    if key in s then
      Step(Ok, s[key := Record(s[key].value, Some(now + 1000 * seconds))])
    else
      Step(Error(NoSuchKey), s)
  }
}
