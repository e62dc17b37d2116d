/** TTL: whole seconds left before a key expires. */
module TtlCmd {
  import opened Store

  /** Time left until `expireAt`, saturating at zero once it has passed. */
  function Remaining(expireAt: nat, now: nat): nat {
    if expireAt > now then expireAt - now else 0
  }

  /** `TTLCommand::execute`: `saturating_duration_since(now).as_secs()`. */
  function Ttl(s: Store, key: string, now: nat): (r: Step)
    ensures r.store == s
    ensures r.reply.Integer?
    ensures (key !in s || s[key].expireAt.None?) ==> r.reply.n == -1
    ensures key in s && s[key].expireAt.Some? ==>
              var left := Remaining(s[key].expireAt.value, now);
              r.reply.n >= 0 && r.reply.n * 1000 <= left < (r.reply.n + 1) * 1000
  {
    if key in s && s[key].expireAt.Some? then
      Step(Integer(Remaining(s[key].expireAt.value, now) / 1000), s)
    else
      Step(Integer(-1), s)
  }
}
