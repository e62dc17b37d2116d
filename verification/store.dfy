/**
 * The shared key space every command works on, and the replies commands
 * produce. A command is one atomic transition of the store: it takes the
 * store and the current time and yields a reply together with the new store.
 */
module Store {
  import opened Wrappers
  import opened Text
  import opened Resp
  import opened JsonValue

  /** A stored value and the instant it expires, in milliseconds; `None` never expires. */
  datatype Record = Record(value: string, expireAt: Option<nat>)

  type Store = map<string, Record>

  /** A record is visible to GET until its expiry instant has strictly passed. */
  predicate Expired(rec: Record, now: nat) {
    rec.expireAt.Some? && now > rec.expireAt.value
  }

  const NoCommand: string := "no command received"
  const UnknownCommand: string := "unknown command or wrong number of arguments"
  const InvalidExpireTime: string := "invalid expire time"
  const NoSuchKey: string := "no such key"
  const NotAnInteger: string := "value is not an integer or out of range"
  const UnsupportedPath: string := "unsupported JSON path"

  datatype Reply =
    | Ok                  // +OK
    | Integer(n: int)     // :<n>
    | Bulk(data: string)  // $<len> followed by the data
    | Nil                 // $-1
    | Error(msg: string)  // -ERR <msg>
    | JsonBulk(doc: Json) // a bulk string holding the serialised document

  /**
   * The wire text of a reply. Serialising a JSON document is the JSON
   * library's business and comes in as `serialize`.
   */
  function Render(reply: Reply, serialize: Json -> string): (text: string)
    ensures |text| >= 3 && text[|text| - 2..] == "\r\n"
    ensures text[0] == (match reply
                        case Ok => '+'
                        case Integer(_) => ':'
                        case Error(_) => '-'
                        case _ => '$')
  {
    match reply
    case Ok => "+OK\r\n"
    case Integer(n) => ":" + IntToString(n) + "\r\n"
    case Bulk(data) => BulkText(data)
    case Nil => "$-1\r\n"
    case Error(msg) => "-ERR " + msg + "\r\n"
    case JsonBulk(doc) => BulkText(serialize(doc))
  }

  /** `$<byte length>\r\n<data>\r\n`. */
  function BulkText(data: string): string {
    "$" + NatToString(|data|) + "\r\n" + data + "\r\n"
  }

  /**
   * A bulk reply reads back, line by line, as a header announcing the data's
   * byte length followed by the data itself: the framing the request decoder
   * checks for each argument.
   */
  lemma BulkFraming(data: string, serialize: Json -> string)
    requires NoCrlf(data) && |data| <= UsizeMax
    ensures HeaderMatches("$" + NatToString(|data|), data)
    ensures SplitLines(Render(Bulk(data), serialize)) == ["$" + NatToString(|data|), data, ""]
  {
    LengthHeader(data);
    BulkLines(data);
  }

  lemma BulkLines(data: string)
    requires NoCrlf(data) && NoCrlf("$" + NatToString(|data|))
    ensures SplitLines(BulkText(data)) == ["$" + NatToString(|data|), data, ""]
  {
    var header := "$" + NatToString(|data|);
    TwoLines(header, data);
    assert BulkText(data) == header + Crlf + data + Crlf;
  }

  /** Two CRLF-terminated lines split back into those lines and an empty last part. */
  lemma TwoLines(header: string, data: string)
    requires NoCrlf(header) && NoCrlf(data)
    ensures SplitLines(header + Crlf + data + Crlf) == [header, data, ""]
  {
    SplitItem(header, data, "");
    assert header + Crlf + data + Crlf + "" == header + Crlf + data + Crlf;
    assert SplitFrom("", "") == [""];
  }

  /** The header `$<len>` is one line and announces the data's length. */
  lemma LengthHeader(data: string)
    requires |data| <= UsizeMax
    ensures NoCrlf("$" + NatToString(|data|))
    ensures HeaderMatches("$" + NatToString(|data|), data)
  {
    var digits := NatToString(|data|);
    var header := "$" + digits;
    ParseUnsignedOfNat(|data|, UsizeMax);
    assert header[1..] == digits;
    forall i | 1 <= i < |header|
      ensures IsDigit(header[i])
    {
      assert header[i] == digits[i - 1];
    }
  }

  /** A serialised JSON document is framed like any other bulk reply. */
  lemma JsonBulkFraming(doc: Json, serialize: Json -> string)
    requires NoCrlf(serialize(doc)) && |serialize(doc)| <= UsizeMax
    ensures SplitLines(Render(JsonBulk(doc), serialize)) == ["$" + NatToString(|serialize(doc)|), serialize(doc), ""]
  {
    BulkFraming(serialize(doc), serialize);
  }

  /**
   * The text between `:` and the terminator of an integer reply is the
   * canonical decimal form of the number, and parses back as that `i64`.
   */
  lemma IntegerText(n: int, serialize: Json -> string)
    requires I64Min <= n <= I64Max
    ensures var t := Render(Integer(n), serialize);
            && |t| >= 3 && t[1..|t| - 2] == IntToString(n)
            && ParseI64(t[1..|t| - 2]) == Some(n)
  {
    var t := Render(Integer(n), serialize);
    assert t[1..|t| - 2] == IntToString(n);
    ParseI64OfInt(n);
  }

  /** The fixed replies, as the handlers write them. */
  lemma FixedReplies(msg: string, serialize: Json -> string)
    ensures Render(Ok, serialize) == "+OK\r\n"
    ensures Render(Nil, serialize) == "$-1\r\n"
    ensures Render(Error(msg), serialize) == "-ERR " + msg + "\r\n"
  {
  }

  /** The outcome of one command: its reply and the store after it. */
  datatype Step = Step(reply: Reply, store: Store)

  /** `t` differs from `s` at most at `key`. */
  predicate OnlyKeyChanged(s: Store, t: Store, key: string) {
    t - {key} == s - {key}
  }
}
