/**
 * Properties of command sequences: what a client observes when it issues
 * one command after another against the same store.
 */
module Scenarios {
  import opened Wrappers
  import opened Text
  import opened JsonValue
  import opened Store
  import opened SetCmd
  import opened GetCmd
  import opened ExpireCmd
  import opened TtlCmd
  import opened Counter
  import opened ExistsCmd
  import opened JsonCmd
  import opened Handler

  /** A SET without expiry is read back by GET at any later instant. */
  lemma SetThenGet(s: Store, key: string, value: string, now: nat, later: nat)
    ensures var t := Set(s, key, value, None, None, now).store;
            Get(t, key, later) == Step(Bulk(value), t)
  {
  }

  /**
   * `SET key value EX n` is visible up to and including the instant `n`
   * seconds later, and afterwards GET answers nil and evicts the key.
   */
  lemma SetExThenGet(s: Store, key: string, value: string, n: nat, now: nat, later: nat)
    ensures var t := Set(s, key, value, Some(n), None, now).store;
            && (later <= now + 1000 * n ==> Get(t, key, later).reply == Bulk(value))
            && (later > now + 1000 * n ==> Get(t, key, later) == Step(Nil, t - {key}))
  {
  }

  /** Right after `EXPIRE key n`, TTL reports exactly `n`. */
  lemma ExpireThenTtl(s: Store, key: string, n: nat, now: nat)
    requires key in s
    ensures Ttl(Expire(s, key, n, now).store, key, now).reply == Integer(n)
  {
    var t := Expire(s, key, n, now).store;
    assert Remaining(t[key].expireAt.value, now) == 1000 * n;
    assert (1000 * n) / 1000 == n;
  }

  /** TTL never goes up as time passes. */
  lemma TtlMonotone(s: Store, key: string, now: nat, later: nat)
    requires key in s && s[key].expireAt.Some? && now <= later
    ensures Ttl(s, key, later).reply.n <= Ttl(s, key, now).reply.n
  {
    var e := s[key].expireAt.value;
    assert Remaining(e, later) <= Remaining(e, now);
    DivMonotone(Remaining(e, later), Remaining(e, now));
  }

  lemma DivMonotone(a: nat, b: nat)
    requires a <= b
    ensures a / 1000 <= b / 1000
  {
  }

  /** INCR followed by DECR gives back the integer the key held, in canonical decimal form. */
  lemma IncrThenDecr(s: Store, key: string, v: int)
    requires key in s && ParseI64(s[key].value) == Some(v) && v < I64Max
    ensures NoOverflow(s, key, 1)
    ensures var t := Adjust(s, key, 1).store;
            && NoOverflow(t, key, -1)
            && Adjust(t, key, -1).reply == Integer(v)
            && Adjust(t, key, -1).store[key] == Record(IntToString(v), s[key].expireAt)
  {
    var t := Adjust(s, key, 1).store;
    assert ParseI64(t[key].value) == Some(v + 1);
    ParseI64OfInt(v);
  }

  /** INCR on a missing key creates it as 1; a DECR then brings it to 0. */
  lemma IncrMissingThenDecr(s: Store, key: string)
    requires key !in s
    ensures Adjust(s, key, 1).reply == Integer(1)
    ensures NoOverflow(Adjust(s, key, 1).store, key, -1)
    ensures Adjust(Adjust(s, key, 1).store, key, -1).reply == Integer(0)
  {
  }

  /** DECR on a missing key creates it as -1. */
  lemma DecrMissing(s: Store, key: string)
    requires key !in s
    ensures Adjust(s, key, -1) == Step(Integer(-1), s[key := Record("-1", None)])
  {
    assert IntToString(-1) == "-1";
  }

  /** A value that is not an integer is reported and left as it was. */
  lemma IncrNotInteger(s: Store, key: string)
    requires key in s && s[key].value == "abc"
    ensures Adjust(s, key, 1) == Step(Error(NotAnInteger), s)
  {
    assert s[key := s[key]] == s;
  }

  /** EXISTS counts a present key once per mention and ignores expiry. */
  lemma ExistsDuplicates(s: Store, present: string, absent: string)
    requires present in s && absent !in s
    ensures Exists(s, [present, absent, present]).reply == Integer(2)
  {
    var keys := [present, absent, present];
    assert keys[1..] == [absent, present] && keys[1..][1..] == [present] && [present][1..] == [];
    assert CountPresent([present], s) == 1;
    assert CountPresent([absent, present], s) == 1;
    assert CountPresent(keys, s) == 2;
  }

  /**
   * JSON.SET at the root followed by JSON.GET answers the document the text
   * parses to, and with paths, the search results over that document.
   */
  lemma JsonSetThenGet(s: Store, key: string, text: string, paths: seq<string>, parse: string -> Json)
    ensures var t := SetJson(s, key, RootPath, text).store;
            && GetJson(t, key, [], parse) == Step(JsonBulk(parse(text)), t)
            && (|paths| > 0 ==> GetJson(t, key, paths, parse) == Step(JsonBulk(GetReply(parse(text), paths)), t))
  {
  }

  /** The recursive-search example: `{"a":{"b":1},"c":{"b":2}}` stored at the root, then `JSON.GET key $..b`. */
  lemma JsonSetThenGetField(s: Store, key: string, text: string, parse: string -> Json)
    requires parse(text) == JObject([("a", JObject([("b", JNumber(1))])), ("c", JObject([("b", JNumber(2))]))])
    ensures var t := SetJson(s, key, RootPath, text).store;
            GetJson(t, key, [FieldBPath], parse).reply == JsonBulk(JArray([JNumber(1), JNumber(2)]))
  {
    FindAllExample();
  }

  /** With several paths the reply is an object keyed by path, one member per path. */
  lemma JsonGetTwoPaths(doc: Json)
    ensures var r := GetReply(doc, [FieldBPath, "a"]);
            && r.JObject?
            && Lookup(r.members, FieldBPath) == Some(JArray(FindAll(doc, "b")))
            && Lookup(r.members, "a") == Some(JArray(FindAll(doc, "a")))
  {
    assert FieldBPath in [FieldBPath, "a"] && "a" in [FieldBPath, "a"];
    assert TrimLeadingDots("a") == "a";
  }

  /** After JSON.DEL the document is gone: JSON.GET reports no such key. */
  lemma JsonDelThenGet(s: Store, key: string, paths: seq<string>, parse: string -> Json)
    requires key in s
    ensures DelJson(s, key).reply == Ok
    ensures GetJson(DelJson(s, key).store, key, paths, parse).reply == Error(NoSuchKey)
    ensures DelJson(DelJson(s, key).store, key).reply == Error(NoSuchKey)
  {
  }

  /** Lower-case command names work: `set k v` followed by `get k` through the dispatcher. */
  lemma DispatchSetThenGet(s: Store, key: string, value: string, now: nat, parse: string -> Json)
    ensures Dispatch(["set", key, value], s, now, parse).Some?
    ensures var t := Dispatch(["set", key, value], s, now, parse).value.store;
            Dispatch(["get", key], t, now, parse) == Some(Step(Bulk(value), t))
  {
    assert Upper("set") == "SET";
    assert Upper("get") == "GET";
  }

  /** `SET k v EX 10 PX 5`: seconds win over milliseconds. */
  lemma DispatchSetExPx(s: Store, key: string, value: string, now: nat, parse: string -> Json)
    ensures var r := Dispatch(["SET", key, value, "EX", "10", "PX", "5"], s, now, parse);
            r.Some? && r.value.store[key] == Record(value, Some(now + 10000))
  {
    var args := ["SET", key, value, "EX", "10", "PX", "5"];
    assert Upper("SET") == "SET";
    assert NatToString(10) == "10" && NatToString(5) == "5";
    assert args[3..] == OptionTokens(Some(10), Some(5)) + [];
    ScanTokens(args, 3, Some(10), Some(5), []);
    assert Recognize(args) == CSet(key, value, Some(10), Some(5));
  }

  /** An EXPIRE whose seconds are not a `u64` is rejected and changes nothing. */
  lemma DispatchBadExpire(s: Store, key: string, now: nat, parse: string -> Json)
    ensures Dispatch(["EXPIRE", key, "-5"], s, now, parse) == Some(Step(Error(InvalidExpireTime), s))
  {
    assert Upper("EXPIRE") == "EXPIRE";
  }

  /** GET with the wrong number of arguments falls through to the catch-all error. */
  lemma DispatchGetArity(s: Store, now: nat, parse: string -> Json)
    ensures Dispatch(["GET"], s, now, parse) == Some(Step(Error(UnknownCommand), s))
  {
    assert Upper("GET") == "GET";
  }
}
