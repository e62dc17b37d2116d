/** GET: look a key up, evicting it when its expiry has passed (lazy expiration). */
module GetCmd {
  import opened Store

  /** `GetCommand::execute`. */
  function Get(s: Store, key: string, now: nat): (r: Step)
    ensures r.reply == Nil || r.reply.Bulk?
    ensures r.reply.Bulk? <==> key in s && !Expired(s[key], now)
    ensures r.reply.Bulk? ==> r.reply.data == s[key].value && r.store == s
    ensures r.store.Keys <= s.Keys && OnlyKeyChanged(s, r.store, key)
    ensures key in r.store ==> r.store[key] == s[key] && !Expired(r.store[key], now)
    ensures key in s && Expired(s[key], now) ==> key !in r.store
    ensures key !in s ==> r.store == s
  {
    if key in s then
      var rec := s[key];
      if rec.expireAt.Some? && now > rec.expireAt.value then Step(Nil, s - {key})
      else Step(Bulk(rec.value), s)
    else Step(Nil, s)
  }
}
