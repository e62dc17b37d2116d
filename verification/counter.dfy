/**
 * INCR and DECR: read the value as a 64-bit signed integer (an absent key
 * reads as "0"), add one or subtract one, and write the decimal text back.
 */
module Counter {
  import opened Wrappers
  import opened Text
  import opened Store

  /** The value the command parses: the stored one, or the `"0"` record `or_insert` creates. */
  function Current(s: Store, key: string): Record {
    if key in s then s[key] else Record("0", None)
  }

  /**
   * The `i64` addition does not overflow. At `i64::MAX` (INCR) or
   * `i64::MIN` (DECR) the server panics or wraps depending on the build.
   */
  predicate NoOverflow(s: Store, key: string, delta: int) {
    var parsed := ParseI64(Current(s, key).value);
    parsed.Some? ==> I64Min <= parsed.value + delta <= I64Max
  }

  /** `IncrCommand::execute` (`delta == 1`) and `DecrCommand::execute` (`delta == -1`). */
  function Adjust(s: Store, key: string, delta: int): (r: Step)
    requires delta == 1 || delta == -1
    requires NoOverflow(s, key, delta)
    ensures OnlyKeyChanged(s, r.store, key)
    ensures r.reply.Integer? || r == Step(Error(NotAnInteger), s)
    ensures r.reply.Integer? <==> ParseI64(Current(s, key).value).Some?
    ensures r.reply.Integer? ==>
              && r.reply.n == ParseI64(Current(s, key).value).value + delta
              && key in r.store
              && r.store[key] == Current(s, key).(value := IntToString(r.reply.n))
              && ParseI64(r.store[key].value) == Some(r.reply.n)
    ensures key !in s ==> r.reply == Integer(delta) && r.store[key] == Record(IntToString(delta), None)
  {
    var rec := Current(s, key);
    var inserted := s[key := rec];
    match ParseI64(rec.value)
    case Some(v) =>
      ParseI64OfInt(v + delta);
      Step(Integer(v + delta), inserted[key := rec.(value := IntToString(v + delta))])
    case None =>
      Step(Error(NotAnInteger), inserted)
  }
}
