/**
 * The connection handler's per-frame work: decode the frame into
 * arguments, recognise the command (case-insensitively, with the arity
 * each command demands), run it against the store and produce its reply.
 */
module Handler {
  import opened Wrappers
  import opened Text
  import opened Resp
  import opened JsonValue
  import opened Store
  import opened SetCmd
  import opened GetCmd
  import opened ExpireCmd
  import opened TtlCmd
  import opened Counter
  import opened ExistsCmd
  import opened JsonCmd

  /** A recognised request, with its arguments already validated as the handler validates them. */
  datatype Command =
    | CSet(key: string, value: string, secs: Option<nat>, millis: Option<nat>)
    | CSetShort                      // SET with fewer than two operands: the handler indexes past the end
    | CGet(key: string)
    | CExpire(key: string, seconds: nat)
    | CBadExpire                     // EXPIRE whose seconds do not parse as u64
    | CTtl(key: string)
    | CIncr(key: string)
    | CDecr(key: string)
    | CExists(keys: seq<string>)
    | CUsers
    | CJsonSet(key: string, path: string, value: string)
    | CJsonGet(key: string, paths: seq<string>)
    | CJsonDel(key: string)
    | CUnknown

  /**
   * The SET option scan from argument `i` on: `EX n` and `PX n` set the
   * seconds and milliseconds (a value that does not parse as u64 resets the
   * option to none), and the scan stops at any other token or at an option
   * with no value after it. Option names are matched case-sensitively.
   */
  function ScanOptions(args: seq<string>, i: nat, secs: Option<nat>, millis: Option<nat>)
    : (r: (Option<nat>, Option<nat>))
    requires secs.Some? ==> secs.value <= U64Max
    requires millis.Some? ==> millis.value <= U64Max
    ensures r.0.Some? ==> r.0.value <= U64Max
    ensures r.1.Some? ==> r.1.value <= U64Max
    ensures i + 1 >= |args| ==> r == (secs, millis)
    decreases |args| - i
  {
    if i >= |args| then (secs, millis)
    else if args[i] == "EX" then
      if i + 1 < |args| then ScanOptions(args, i + 2, ParseUnsigned(args[i + 1], U64Max), millis)
      else (secs, millis)
    else if args[i] == "PX" then
      if i + 1 < |args| then ScanOptions(args, i + 2, secs, ParseUnsigned(args[i + 1], U64Max))
      else (secs, millis)
    else (secs, millis)
  }

  /** Whether a token starts an option the scan understands. */
  predicate IsOptionName(token: string) {
    token == "EX" || token == "PX"
  }

  /** The option tokens a client writes for an expiry: `EX` first, then `PX`. */
  function OptionTokens(secs: Option<nat>, millis: Option<nat>): (ts: seq<string>)
    ensures |ts| == (if secs.Some? then 2 else 0) + (if millis.Some? then 2 else 0)
  {
    (if secs.Some? then ["EX", NatToString(secs.value)] else [])
      + (if millis.Some? then ["PX", NatToString(millis.value)] else [])
  }

  /**
   * Whether the handler's `match` has an arm for command name `name` (already
   * upper-cased) with `n` arguments in total: SET, EXISTS and USERS take any
   * number, the others carry the arity guard of their arm. Everything else
   * reaches the catch-all arm.
   */
  predicate Accepted(name: string, n: nat) {
    || name == "SET" || name == "EXISTS" || name == "USERS"
    || (name == "EXPIRE" && n == 3)
    || (name == "JSON.SET" && n == 4)
    || (name == "JSON.GET" && n >= 2)
    || ((name == "GET" || name == "TTL" || name == "INCR" || name == "DECR" || name == "JSON.DEL") && n == 2)
  }

  /**
   * `args[0]` upper-cased, compared against each command name in the
   * handler's order, each with its arity guard; the first match wins.
   */
  function Recognize(args: seq<string>): (c: Command)
    requires |args| > 0
    ensures c.CSet? <==> Upper(args[0]) == "SET" && |args| >= 3
    ensures c.CSetShort? <==> Upper(args[0]) == "SET" && |args| < 3
    ensures c.CGet? <==> Upper(args[0]) == "GET" && |args| == 2
    ensures c.CExpire? <==> Upper(args[0]) == "EXPIRE" && |args| == 3 && ParseUnsigned(args[2], U64Max).Some?
    ensures c.CBadExpire? <==> Upper(args[0]) == "EXPIRE" && |args| == 3 && ParseUnsigned(args[2], U64Max).None?
    ensures c.CTtl? <==> Upper(args[0]) == "TTL" && |args| == 2
    ensures c.CIncr? <==> Upper(args[0]) == "INCR" && |args| == 2
    ensures c.CDecr? <==> Upper(args[0]) == "DECR" && |args| == 2
    ensures c.CExists? <==> Upper(args[0]) == "EXISTS"
    ensures c.CUsers? <==> Upper(args[0]) == "USERS"
    ensures c.CJsonSet? <==> Upper(args[0]) == "JSON.SET" && |args| == 4
    ensures c.CJsonGet? <==> Upper(args[0]) == "JSON.GET" && |args| >= 2
    ensures c.CJsonDel? <==> Upper(args[0]) == "JSON.DEL" && |args| == 2
    ensures c.CUnknown? <==> !Accepted(Upper(args[0]), |args|)
    ensures c.CGet? || c.CTtl? || c.CIncr? || c.CDecr? || c.CJsonDel? ==> c.key == args[1]
    ensures c.CExpire? ==> c.key == args[1] && ParseUnsigned(args[2], U64Max) == Some(c.seconds)
    ensures c.CSet? ==> c.key == args[1] && c.value == args[2] && (c.secs, c.millis) == ScanOptions(args, 3, None, None)
    ensures c.CExists? ==> c.keys == args[1..]
    ensures c.CJsonSet? ==> c == CJsonSet(args[1], args[2], args[3])
    ensures c.CJsonGet? ==> c == CJsonGet(args[1], args[2..])
  {
    var name := Upper(args[0]);
    var n := |args|;
    if name == "SET" then
      if n < 3 then CSetShort
      else
        var (secs, millis) := ScanOptions(args, 3, None, None);
        CSet(args[1], args[2], secs, millis)
    else if name == "GET" && n == 2 then CGet(args[1])
    else if name == "EXPIRE" && n == 3 then
      match ParseUnsigned(args[2], U64Max)
      case Some(seconds) => CExpire(args[1], seconds)
      case None => CBadExpire
    else if name == "TTL" && n == 2 then CTtl(args[1])
    else if name == "INCR" && n == 2 then CIncr(args[1])
    else if name == "DECR" && n == 2 then CDecr(args[1])
    else if name == "EXISTS" then CExists(args[1..])
    else if name == "USERS" then CUsers
    else if name == "JSON.SET" && n == 4 then CJsonSet(args[1], args[2], args[3])
    else if name == "JSON.GET" && n >= 2 then CJsonGet(args[1], args[2..])
    else if name == "JSON.DEL" && n == 2 then CJsonDel(args[1])
    else CUnknown
  }

  /**
   * What running `c` needs that the model does not supply: USERS queries an
   * external user database, and INCR/DECR must stay inside `i64`.
   */
  predicate Runnable(c: Command, s: Store) {
    && !c.CUsers?
    && (c.CIncr? ==> NoOverflow(s, c.key, 1))
    && (c.CDecr? ==> NoOverflow(s, c.key, -1))
  }

  /**
   * One recognised command as a store transition; `None` when the handler
   * panics (SET without its operands), which ends the connection with the
   * store untouched.
   */
  function Execute(c: Command, s: Store, now: nat, parse: string -> Json): (r: Option<Step>)
    requires Runnable(c, s)
    ensures r.None? <==> c.CSetShort?
    ensures c.CUnknown? ==> r == Some(Step(Error(UnknownCommand), s))
    ensures c.CBadExpire? ==> r == Some(Step(Error(InvalidExpireTime), s))
    ensures r.Some? && (c.CTtl? || c.CExists? || c.CJsonGet?) ==> r.value.store == s
  {
    match c
    case CSet(key, value, secs, millis) => Some(Set(s, key, value, secs, millis, now))
    case CSetShort => None
    case CGet(key) => Some(Get(s, key, now))
    case CExpire(key, seconds) => Some(Expire(s, key, seconds, now))
    case CBadExpire => Some(Step(Error(InvalidExpireTime), s))
    case CTtl(key) => Some(Ttl(s, key, now))
    case CIncr(key) => Some(Adjust(s, key, 1))
    case CDecr(key) => Some(Adjust(s, key, -1))
    case CExists(keys) => Some(Exists(s, keys))
    case CJsonSet(key, path, value) => Some(SetJson(s, key, path, value))
    case CJsonGet(key, paths) => Some(GetJson(s, key, paths, parse))
    case CJsonDel(key) => Some(DelJson(s, key))
    case CUnknown => Some(Step(Error(UnknownCommand), s))
  }

  /**
   * The handler's `match` on a non-empty argument list. Whatever the
   * command, only the key named by `args[1]` can change.
   */
  function Dispatch(args: seq<string>, s: Store, now: nat, parse: string -> Json): (r: Option<Step>)
    requires |args| > 0
    requires Runnable(Recognize(args), s)
    ensures r.None? <==> Upper(args[0]) == "SET" && |args| < 3
    ensures r.Some? && |args| < 2 ==> r.value.store == s
    ensures r.Some? && |args| >= 2 ==> OnlyKeyChanged(s, r.value.store, args[1])
    ensures !Accepted(Upper(args[0]), |args|) ==> r == Some(Step(Error(UnknownCommand), s))
    ensures r.Some? && r.value.reply == Error(UnknownCommand) <==> !Accepted(Upper(args[0]), |args|)
  {
    var c := Recognize(args);
    var r := Execute(c, s, now, parse);
    assert r.Some? && |args| < 2 ==> r.value.store == s by {
      if r.Some? && |args| < 2 {
        assert c.CExists? || c.CUnknown? || c.CUsers?;
      }
    }
    r
  }

  /**
   * One frame read from the socket: a frame that decodes to no arguments
   * is answered with an error and changes nothing.
   */
  function Serve(input: string, s: Store, now: nat, parse: string -> Json): (r: Option<Step>)
    requires |Decode(input)| > 0 ==> Runnable(Recognize(Decode(input)), s)
    ensures Decode(input) == [] ==> r == Some(Step(Error(NoCommand), s))
    ensures Decode(input) != [] ==> r == Dispatch(Decode(input), s, now, parse)
  {
    var args := Decode(input);
    if |args| == 0 then Some(Step(Error(NoCommand), s))
    else Dispatch(args, s, now, parse)
  }

  /** The option scan reads only the arguments from its starting point on. */
  lemma {:induction false} ScanShift(a: seq<string>, i: nat, b: seq<string>, j: nat, secs: Option<nat>, millis: Option<nat>)
    requires i <= |a| && j <= |b| && a[i..] == b[j..]
    requires secs.Some? ==> secs.value <= U64Max
    requires millis.Some? ==> millis.value <= U64Max
    ensures ScanOptions(a, i, secs, millis) == ScanOptions(b, j, secs, millis)
    decreases |a| - i
  {
    if i < |a| {
      assert a[i] == a[i..][0] == b[j..][0] == b[j];
      if i + 1 < |a| {
        assert a[i + 1] == a[i..][1] == b[j..][1] == b[j + 1];
        assert a[i + 2..] == a[i..][2..] == b[j..][2..] == b[j + 2..];
        var ex := ParseUnsigned(a[i + 1], U64Max);
        ScanShift(a, i + 2, b, j + 2, ex, millis);
        ScanShift(a, i + 2, b, j + 2, secs, ex);
      }
    }
  }

  /** The scan stops, keeping what it has, at the end or at a token that is not an option. */
  lemma ScanStops(args: seq<string>, i: nat, secs: Option<nat>, millis: Option<nat>)
    requires i <= |args| && (i == |args| || !IsOptionName(args[i]))
    requires secs.Some? ==> secs.value <= U64Max
    requires millis.Some? ==> millis.value <= U64Max
    ensures ScanOptions(args, i, secs, millis) == (secs, millis)
  {
  }

  /**
   * Round trip: scanning the option tokens written for an expiry, followed
   * by anything that is not an option, yields that expiry.
   */
  lemma {:induction false} ScanTokens(args: seq<string>, i: nat, secs: Option<nat>, millis: Option<nat>, tail: seq<string>)
    requires secs.Some? ==> secs.value <= U64Max
    requires millis.Some? ==> millis.value <= U64Max
    requires i <= |args| && args[i..] == OptionTokens(secs, millis) + tail
    requires tail == [] || !IsOptionName(tail[0])
    ensures ScanOptions(args, i, None, None) == (secs, millis)
  {
    var px := if millis.Some? then ["PX", NatToString(millis.value)] else [];
    var j := i + (if secs.Some? then 2 else 0);
    if secs.Some? {
      assert args[i] == args[i..][0] == "EX";
      assert args[i + 1] == args[i..][1] == NatToString(secs.value);
      ParseUnsignedOfNat(secs.value, U64Max);
    }
    assert args[j..] == px + tail by {
      if secs.Some? {
        assert args[i..] == ["EX", NatToString(secs.value)] + (px + tail);
        assert args[j..] == args[i..][2..];
      }
    }
    assert ScanOptions(args, i, None, None) == ScanOptions(args, j, secs, None);
    if millis.Some? {
      assert args[j] == args[j..][0] == "PX";
      assert args[j + 1] == args[j..][1] == NatToString(millis.value);
      ParseUnsignedOfNat(millis.value, U64Max);
      assert args[j + 2..] == args[j..][2..] == tail;
      assert ScanOptions(args, j, secs, None) == ScanOptions(args, j + 2, secs, millis);
      ScanStops(args, j + 2, secs, millis);
    } else {
      assert args[j..] == tail;
      ScanStops(args, j, secs, None);
    }
  }

  /** A later `EX` overrides an earlier one. */
  lemma LaterExWins(args: seq<string>, i: nat, secs: Option<nat>, millis: Option<nat>)
    requires i + 4 <= |args| && args[i] == "EX" && args[i + 2] == "EX"
    requires secs.Some? ==> secs.value <= U64Max
    requires millis.Some? ==> millis.value <= U64Max
    ensures ScanOptions(args, i, secs, millis) == ScanOptions(args, i + 4, ParseUnsigned(args[i + 3], U64Max), millis)
  {
  }

  /** Command names are matched without regard to ASCII case. */
  lemma RecognizeIgnoresCase(args: seq<string>)
    requires |args| > 0
    ensures Recognize([Upper(args[0])] + args[1..]) == Recognize(args)
  {
    var up := [Upper(args[0])] + args[1..];
    UpperIdempotent(args[0]);
    assert up[1..] == args[1..];
    if |args| >= 3 {
      assert up[3..] == args[3..];
      ScanShift(up, 3, args, 3, None, None);
    }
  }

  /** The commands a client can spell: expiry values within `u64`. */
  predicate Spellable(c: Command) {
    && (c.CSet? ==> (c.secs.Some? ==> c.secs.value <= U64Max) && (c.millis.Some? ==> c.millis.value <= U64Max))
    && (c.CExpire? ==> c.seconds <= U64Max)
  }

  /** An argument list that the handler recognises as `c`. */
  function ArgsOf(c: Command): (args: seq<string>)
    ensures |args| > 0
  {
    match c
    case CSet(key, value, secs, millis) => ["SET", key, value] + OptionTokens(secs, millis)
    case CSetShort => ["SET"]
    case CGet(key) => ["GET", key]
    case CExpire(key, seconds) => ["EXPIRE", key, NatToString(seconds)]
    case CBadExpire => ["EXPIRE", "", ""]
    case CTtl(key) => ["TTL", key]
    case CIncr(key) => ["INCR", key]
    case CDecr(key) => ["DECR", key]
    case CExists(keys) => ["EXISTS"] + keys
    case CUsers => ["USERS"]
    case CJsonSet(key, path, value) => ["JSON.SET", key, path, value]
    case CJsonGet(key, paths) => ["JSON.GET", key] + paths
    case CJsonDel(key) => ["JSON.DEL", key]
    case CUnknown => ["PING"]
  }

  /** Round trip: every spellable command is recognised from its argument list. */
  lemma RecognizeArgsOf(c: Command)
    requires Spellable(c)
    ensures Recognize(ArgsOf(c)) == c
  {
    var args := ArgsOf(c);
    UpperOfNames();
    match c
    case CSet(key, value, secs, millis) =>
      assert args[3..] == OptionTokens(secs, millis) + [];
      ScanTokens(args, 3, secs, millis, []);
    case CExpire(key, seconds) =>
      ParseUnsignedOfNat(seconds, U64Max);
    case CExists(keys) =>
      assert args[1..] == keys;
    case CJsonGet(key, paths) =>
      assert args[2..] == paths;
    case _ =>
  }

  /** The command names are already upper case. */
  lemma UpperOfNames()
    ensures Upper("SET") == "SET" && Upper("GET") == "GET" && Upper("EXPIRE") == "EXPIRE"
    ensures Upper("TTL") == "TTL" && Upper("INCR") == "INCR" && Upper("DECR") == "DECR"
    ensures Upper("EXISTS") == "EXISTS" && Upper("USERS") == "USERS" && Upper("PING") == "PING"
    ensures Upper("JSON.SET") == "JSON.SET" && Upper("JSON.GET") == "JSON.GET" && Upper("JSON.DEL") == "JSON.DEL"
  {
  }

  /**
   * Decoding and dispatch compose: a request written as a well-formed frame
   * of CRLF-free arguments is served as those arguments.
   */
  lemma ServeEncoded(args: seq<string>, s: Store, now: nat, parse: string -> Json)
    requires 0 < |args| <= UsizeMax
    requires forall k :: 0 <= k < |args| ==> NoCrlf(args[k]) && |args[k]| <= UsizeMax
    requires Runnable(Recognize(args), s)
    ensures Decode(Encode(args)) == args
    ensures Serve(Encode(args), s, now, parse) == Dispatch(args, s, now, parse)
  {
    DecodeEncode(args);
    ServeDecoded(Encode(args), args, s, now, parse);
  }

  lemma ServeDecoded(input: string, args: seq<string>, s: Store, now: nat, parse: string -> Json)
    requires |args| > 0 && Decode(input) == args
    requires Runnable(Recognize(args), s)
    ensures Serve(input, s, now, parse) == Dispatch(args, s, now, parse)
  {
  }
}
