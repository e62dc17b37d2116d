# rustis command engine, modelled in Dafny

rustis is a small Redis-like key-value server. A client sends a request as
a RESP array of bulk strings (`*N\r\n$L\r\n<arg>\r\n...`). The server
splits the request into arguments and picks a command by its upper-cased
name and its argument count. It then runs the command against one shared
map from keys to records and writes back a RESP reply. A record holds a
string value and an optional expiry instant. Expiry is lazy: only GET
evicts a record whose expiry has passed.

This project models that engine as pure functions:

- `Resp` is the frame decoder `parse_resp_bulk_string`, built on a model of `str::split("\r\n")`. An encoder is its inverse.
- `Text` covers Rust's `str::parse` for `usize`, `u64` and `i64`, and the decimal formatting of integers. It also holds ASCII upper-casing and `trim_start_matches("..")`.
- `Store` holds the record, the store (`map<string, Record>`), the reply kinds and their wire text.
- `SetCmd`, `GetCmd`, `ExpireCmd`, `TtlCmd`, `Counter` and `ExistsCmd` are one module per command handler. INCR and DECR share `Counter.Adjust`.
- `JsonValue` is the JSON document and the recursive field search `find_all_paths`.
- `JsonCmd` covers JSON.SET, JSON.GET and JSON.DEL.
- `Handler` has the SET option scan, the command recognition with its arity guards, the dispatch and the per-frame service.
- `Scenarios` holds properties of command sequences, such as SET followed by GET, EXPIRE followed by TTL, and INCR followed by DECR.

Conventions:

- Each command is a function from a store to a `Step`, which pairs the reply with the new store.
- The clock is a parameter `now`, in milliseconds. `Instant::now() + Duration::from_secs(n)` becomes `now + 1000 * n`.
- A `char` stands for one byte, so `len()` is the sequence length.
- Parsing JSON text (`serde_json::from_str(..).unwrap_or(null)`) is a parameter `parse`. Serialising a document is a parameter `serialize`.
- JSON object members are a sequence, in the order the parsed map yields them.

In two places the code does something other than what its authors evidently intended. The model follows the code:

- JSON.GET derives the field to search for as follows.
  - The path `$..b` searches for the field `b`.
  - Every other path is stripped of leading `..` pairs only.
  - So `$..c` searches for a member literally named `$..c`, and `..c` searches for `c`.
  - The evident intent is that any `$..name` path searches for `name`. `JsonCmd.SearchKeyAsWritten` pins down the behaviour as written.
- A SET with fewer than two operands is not an error reply. The handler indexes past the end of the argument list, and the connection task panics. This happens before the store is locked, so other connections are unaffected. `Handler.Execute` returns `None` for it.

## Model

| member | source | states |
|---|---|---|
| Text.ParseUnsigned | src/handler.rs:106 | `str::parse::<u64>`/`usize` accepts exactly one or more decimal digits, optionally after one `+`, whose value fits the type. The result is the value of those digits. |
| Text.ParseI64 | src/cmd/incr.rs:20 | `str::parse::<i64>` accepts exactly what the unsigned parse accepts within `i64::MAX`, or `-` followed by digits whose value is at most 2^63. A `-` gives the negated value. |
| Text.ParseUnsignedOfNat | src/handler.rs:21 | Every in-range number, printed in decimal, parses back to itself. |
| Text.NatToString | src/cmd/get.rs:26 | Decimal printing of a length yields digits only, denoting exactly that number. It starts with `0` only when it is `"0"` itself. |
| Text.IntToString | src/cmd/incr.rs:23-24 | `i64::to_string` prints a non-negative value as its canonical decimal digits. It prints a negative value as `-` followed by the canonical digits of its magnitude, never starting with `0`. |
| Text.ParseI64OfInt | src/cmd/incr.rs:20-24 | Round trip: every `i64` printed by `to_string` parses back with `parse::<i64>` to the same value, negative values included. |
| Text.Upper | src/handler.rs:66 | `to_uppercase` keeps the length and maps each character on its own: `a`-`z` to `A`-`Z`, everything else unchanged. |
| Text.UpperIdempotent | src/handler.rs:66 | Upper-casing a command name twice is the same as once. |
| Text.TrimLeadingDots | src/cmd/json.rs:71 | `trim_start_matches("..")` removes a leading run of `..` pairs and nothing else, so the result is a suffix of the path. The result no longer starts with `..`. A path not starting with `.` is returned whole. |
| Text.DotPairsShape | src/cmd/json.rs:71 | What the trim removes has even length and holds only dots. |
| Resp.SplitLines | src/handler.rs:14 | `split("\r\n")` always yields at least one part. The first part is a prefix of the input, and no part contains CRLF. |
| Resp.SplitFromNoCrlf | src/handler.rs:14 | Every CRLF in the input is a separator: a `\r` stays inside a part only when no `\n` follows it. |
| Resp.SplitJoin | src/handler.rs:14 | Joining CRLF-free parts with CRLF and splitting gives the parts back. With `JoinSplit`, the split is the only CRLF-free list of parts that joins to the input. |
| Resp.SplitWhole | src/handler.rs:14 | Input with no CRLF left is one part. |
| Resp.JoinSplit | src/handler.rs:14 | Splitting on CRLF loses nothing: joining the parts with CRLF gives the input back. |
| Resp.SplitFromPrefix | src/handler.rs:14 | The first part of a split is a prefix of the input. |
| Resp.ParseCount | src/handler.rs:20-21 | A count is accepted exactly when the line starts with `*` and the rest parses as a `usize`, so `*01` and `*+2` are accepted too. Its value is that of the digits after the `*` and an optional `+`. |
| Resp.ParseCountOfNat | src/handler.rs:20-21 | Round trip: `*` followed by any `usize` in decimal announces exactly that count. |
| Resp.Slot | src/handler.rs:23-31 | Argument `i` is kept exactly when lines `2i+1` and `2i+2` exist and the `$` header parses to the value's length. The kept text is line `2i+2`. |
| Resp.CollectSlots | src/handler.rs:22-32 | The loop keeps at most `count` arguments, and each kept argument is a well-formed slot below the count. |
| Resp.CollectPairs | src/handler.rs:22-32 | For any split, the loop from slot `i` yields exactly the values of the well-formed (header, value) line pairs from pair `i` up to the count or the last complete pair, in order. |
| Resp.DecodeSplit | src/handler.rs:12-35 | Any input whose first line is a valid count decodes to exactly the well-formed pairs among the first `count` line pairs after it. A pair the input lacks contributes nothing. |
| Resp.Decode | src/handler.rs:12-35 | Input not starting with `*`, or with a count that does not parse, decodes to no arguments. Otherwise at most the declared count is decoded. |
| Resp.KeptSound | src/handler.rs:26-27 | Every decoded value comes from a slot whose header matches its length. |
| Resp.DecodeFrame | src/handler.rs:20-32 | A frame `*N` with given slots decodes to exactly the well-formed slots among the first `N`, in frame order. |
| Resp.DecodeEncode | src/handler.rs:12-35 | Round trip: encoding CRLF-free arguments as a bulk-string array and decoding gives the same list. |
| Resp.KeptSkipsBad | src/handler.rs:23-31 | A malformed slot contributes nothing: the output is what comes before it followed by what comes after it. |
| Resp.KeptAllButOne | src/handler.rs:23-31 | With exactly one malformed slot, only that argument is dropped, and all later arguments are still decoded. |
| Store.Render | src/cmd/get.rs:23-28 | Every reply is CRLF-terminated and starts with the RESP type byte of its kind (`+`, `:`, `-`, `$`). |
| Store.BulkFraming | src/cmd/get.rs:26 | A bulk reply of CRLF-free data splits into a header line and the data line. The header announces exactly the data's byte length, as the request decoder would check it. |
| Store.JsonBulkFraming | src/cmd/json.rs:54-55 | A serialised JSON document is framed the same way, with its byte length in the header. |
| Store.LengthHeader | src/cmd/get.rs:26 | The `$<len>` header is a single line, and it matches data of that length. |
| Store.TwoLines | src/handler.rs:14 | Two CRLF-terminated lines split into exactly those two lines and an empty last part. |
| Store.IntegerText | src/cmd/incr.rs:24 | The text between `:` and the terminator of an integer reply is exactly `IntToString(n)`, the canonical decimal form, so `:2` and never `:+2` or `:02`. It parses back as that `i64`. |
| Store.FixedReplies | src/cmd/tests.rs:33-68 | The fixed replies are literally `+OK`, `$-1` and `-ERR <message>`, each followed by CRLF. |
| SetCmd.Set | src/cmd/set.rs:17-28 | SET always replies OK and stores the value. Seconds take precedence over milliseconds for the expiry, and with neither option any earlier expiry is cleared. Only the key changes. |
| SetCmd.SetIdempotent | src/cmd/set.rs:26 | The same SET twice at the same instant leaves the store as one SET does. |
| GetCmd.Get | src/cmd/get.rs:17-30 | GET returns the value exactly when the key is present and not strictly past its expiry, and then the store is untouched. An expired record is removed and answered with nil. A missing key changes nothing. |
| ExpireCmd.Expire | src/cmd/expire.rs:15-24 | A present key keeps its value and gets the expiry `now + 1000*seconds`, replacing any earlier one. A missing key gives "no such key" and creates nothing. The set of keys never changes. |
| TtlCmd.Ttl | src/cmd/ttl.rs:14-22 | TTL is read-only. It is -1 without a key or expiry. Otherwise it is the floor of the remaining whole seconds, saturating at 0. |
| Counter.Adjust | src/cmd/incr.rs:16-28 | INCR/DECR reply with the parsed `i64` plus or minus one exactly when the value parses. An absent key counts as "0". The stored record is the old one (or the new `"0"` record) with its text replaced by the decimal form of the reply, so the expiry is kept and the text parses back to the reply. A non-integer gives the integer error with the store unchanged. |
| ExistsCmd.CountPresent | src/cmd/exists.rs:18-22 | The count is at most the number of keys given. It equals that number exactly when all are present, and is 0 exactly when none is. |
| ExistsCmd.CountKeys | src/cmd/exists.rs:14-25 | The counting loop computes the number of argument positions whose key is present, duplicates counted. |
| ExistsCmd.Exists | src/handler.rs:125-127 | EXISTS is read-only, and its count lies between 0 and the number of keys given. |
| JsonValue.FindAllInto | src/cmd/json.rs:89-106 | `find_all_paths` only appends: the result is the accumulator followed by the matching values of the depth-first entry list. |
| JsonValue.FindAll | src/cmd/json.rs:89-106 | A fresh search yields the values of the entries keyed by the search key, in depth-first, parent-first order. |
| JsonValue.FindAllMembers | src/cmd/json.rs:92-96 | Every found value belongs to an entry with the search key, and every such entry's value is found. Scalars yield nothing. |
| JsonValue.FindAllIntoExtends | src/cmd/json.rs:94 | The existing prefix of the result vector is preserved. |
| JsonValue.FindAllObjectOrder | src/cmd/json.rs:91-98 | Order inside an object: earlier members' matches come first, then member `i` when its key matches, then matches inside its value, then later members'. |
| JsonValue.FindAllArrayOrder | src/cmd/json.rs:99-103 | Array elements are searched in index order. |
| JsonValue.FindAllExample | src/cmd/json.rs:89-106 | Searching `{"a":{"b":1},"c":{"b":2}}` for `b` yields `[1, 2]`. |
| JsonCmd.SetJson | src/cmd/json.rs:25-33 | With path `$`, the raw text is stored with no expiry and OK is returned. Any other path gives the unsupported-path error and changes nothing. |
| JsonCmd.DelJson | src/cmd/json.rs:119-126 | A present key is removed with OK. An absent one gives "no such key", and the store is unchanged. |
| JsonCmd.Lookup | src/cmd/json.rs:68 | Reading an object member finds a value exactly for the keys the object has, and that value is a member's. |
| JsonCmd.Upsert | src/cmd/json.rs:72 | `path_results[path] = v` makes `path` map to `v`, leaves every other key's value alone, adds no other key, and keeps keys distinct. |
| JsonCmd.PathLoop | src/cmd/json.rs:61-74 | After the path loop, every requested path maps to its match array. A lone `$..b` fills the flat result instead. |
| JsonCmd.GetReply | src/cmd/json.rs:58-82 | The reply shape: a lone `$..b` with matches gives the flat array, and with none gives `{}`. Otherwise the reply is an object holding exactly the requested paths, each with its matches. |
| JsonCmd.GetJson | src/cmd/json.rs:49-86 | JSON.GET never changes the store. An absent key is an error. With no paths the parsed document is returned. |
| JsonCmd.SearchKey | src/cmd/json.rs:63-71 | `$..b` searches for `b`. Any other path searches for itself with a leading run of `..` pairs removed, so a path not starting with `.` is searched for as is. |
| JsonCmd.SearchKeyNoDot | src/cmd/json.rs:63-71 | Any path other than `$..b` that starts with `$`, such as `$..c`, is searched for literally. |
| JsonCmd.SearchKeyDots | src/cmd/json.rs:71 | A path `..name`, where `name` does not start with `.`, searches for `name`. |
| JsonCmd.SearchKeyAsWritten | src/cmd/json.rs:63-71 | Only `$..b` searches for a bare field: `$..c` searches for `$..c`, while `..c` searches for `c`. |
| Handler.ScanOptions | src/handler.rs:73-96 | The option scan only yields `u64` values, and it does nothing when no option and value pair remains. |
| Handler.ScanTokens | src/handler.rs:73-96 | Round trip: scanning `EX s`/`PX m` followed by a non-option token or the end gives back exactly `s` and `m`. |
| Handler.ScanShift | src/handler.rs:75-76 | The scan reads only the arguments from its position on. |
| Handler.LaterExWins | src/handler.rs:77-80 | A later `EX` overrides an earlier one, and an unparsable value resets the option to none. |
| Handler.Recognize | src/handler.rs:66-160 | Each command is recognised exactly when its upper-cased name matches and its arity guard holds. GET, TTL, INCR, DECR and JSON.DEL need exactly one key. EXPIRE needs two operands, JSON.SET three, and JSON.GET at least a key. SET, EXISTS and USERS take any number. EXPIRE rejects exactly the non-`u64` seconds. Everything else, and only that, is the catch-all. |
| Handler.RecognizeIgnoresCase | src/handler.rs:66 | Command names are matched without regard to ASCII case. |
| Handler.RecognizeArgsOf | src/handler.rs:66-160 | Round trip: every command a client can spell is recognised back from its argument list. |
| Handler.Execute | src/handler.rs:99-160 | Only a too-short SET aborts. Unknown commands and bad EXPIRE seconds give their errors with the store unchanged. TTL, EXISTS and JSON.GET are read-only. |
| Handler.Dispatch | src/handler.rs:66-161 | Whatever the command, only the key named by the first operand can change. Without an operand nothing changes. The catch-all error is the reply exactly when the name is unknown or its arity guard fails. |
| Handler.Serve | src/handler.rs:59-64 | A frame decoding to no arguments is answered "no command received" and changes nothing. |
| Handler.ServeEncoded | src/handler.rs:59-66 | Decoding and dispatch compose: a well-formed frame is served as its arguments. |
| Scenarios.SetThenGet | src/cmd/get.rs:26 | SET without expiry, then GET at any later time, returns the value. |
| Scenarios.SetExThenGet | src/cmd/get.rs:20-24 | After `SET EX n`, GET sees the value up to `now + 1000n` inclusive. After that it answers nil and evicts the key. |
| Scenarios.ExpireThenTtl | src/cmd/ttl.rs:17 | EXPIRE k s, then TTL k at the same instant, reports exactly s. |
| Scenarios.TtlMonotone | src/cmd/ttl.rs:17 | TTL never increases as time passes. |
| Scenarios.IncrThenDecr | src/cmd/decr.rs:23-27 | DECR after INCR restores the integer, keeps the expiry, and stores it in canonical decimal form. |
| Scenarios.IncrMissingThenDecr | src/cmd/tests.rs:101-109 | INCR on a missing key replies 1, and a following DECR replies 0. |
| Scenarios.DecrMissing | src/cmd/tests.rs:124-133 | DECR on a missing key stores "-1" without expiry and replies -1. |
| Scenarios.IncrNotInteger | src/cmd/incr.rs:26 | A non-integer value yields the integer error and leaves the store unchanged. |
| Scenarios.ExistsDuplicates | src/cmd/exists.rs:18-22 | A present key mentioned twice is counted twice, and an absent one is not counted. |
| Scenarios.JsonSetThenGet | src/cmd/json.rs:25-55 | JSON.SET at `$` followed by JSON.GET without paths answers the document the stored text parses to. With paths, it answers the search results over that document. |
| Scenarios.JsonSetThenGetField | src/cmd/json.rs:61-78 | JSON.SET at `$` of `{"a":{"b":1},"c":{"b":2}}`, then `JSON.GET $..b`, replies `[1,2]`. |
| Scenarios.JsonGetTwoPaths | src/cmd/json.rs:67-72 | With two paths, each is a key of the reply object holding its own matches. |
| Scenarios.JsonDelThenGet | src/cmd/json.rs:119-126 | After JSON.DEL, JSON.GET and a second JSON.DEL both report "no such key". |
| Scenarios.DispatchSetThenGet | src/handler.rs:66-103 | Lower-case `set k v` followed by `get k` through the dispatcher returns `v`. |
| Scenarios.DispatchSetExPx | src/handler.rs:73-99 | `SET k v EX 10 PX 5` stores an expiry 10 seconds out: seconds win. |
| Scenarios.DispatchBadExpire | src/handler.rs:105-111 | `EXPIRE k -5` is rejected as an invalid expire time, with the store unchanged. |
| Scenarios.DispatchGetArity | src/handler.rs:160 | GET without a key falls through to the catch-all error, with the store unchanged. |

## Left out

- The USERS command queries an external user database and is not modelled. `Handler.Runnable` excludes it.
- The socket loop is not modelled:
  - 1024-byte reads, so a request larger than one read is split across frames;
  - `String::from_utf8_lossy`;
  - writing and flushing the reply;
  - connection close and logging.
- config.rs, main.rs and db/connection.rs are not part of this model.
- The mutex around the store is not modelled. Each command is one atomic step.
- JSON text parsing and serialisation belong to `serde_json` and are parameters.
  - JSON numbers are integers only.
  - The member order of a parsed document depends on the map `serde_json` is built with. That order lives in `parse`.
- JsonCmd.Upsert: fixes the member order of the multi-path JSON.GET reply. A new path is appended, and a repeated path replaces its member in place. `serde_json` gives this order only with its `preserve_order` feature; by default its map iterates in key order. The contracts of `JsonCmd.GetReply` speak of lookups only, so they do not depend on the order.
- The fallback strings JSON.GET uses when serialisation fails cannot arise for a parsed value, and are not modelled.
- `to_uppercase` is modelled for ASCII only. Non-ASCII case mapping is not modelled.
- Counter.Adjust: requires that the `i64` addition does not overflow. At `i64::MAX` for INCR or `i64::MIN` for DECR, the server panics in debug builds (src/cmd/incr.rs:22, src/cmd/decr.rs:25) and wraps in release builds. The panic happens while the store mutex is held, which poisons it. From then on every command that locks the store panics on its `lock().unwrap()`, on every connection. The model does not describe this state.
- Handler.Dispatch: requires the recognised command to be runnable, that is, not USERS and with no INCR/DECR overflow. This is for the reasons above.
- TtlCmd.Ttl: `Instant` has sub-millisecond resolution. The model counts time in whole milliseconds, so the floor to seconds is taken over milliseconds.
- SetCmd.Set: `Instant::now() + Duration::from_secs(n)` (src/cmd/set.rs:20) panics when the sum overflows. On 64-bit Unix, `Instant` keeps its seconds in an `i64`, so any EX value above roughly `i64::MAX` seconds, less the clock's current reading, overflows. The panic happens with the store mutex held, so it poisons the mutex, and every later command on every connection panics. The model uses unbounded arithmetic and does not describe this state.
- ExpireCmd.Expire: the same `Instant` overflow (src/cmd/expire.rs:18) is not modelled. It also panics with the mutex held and poisons it.
- Resp.Decode: the time the decoder takes is not modelled. With a declared count near `usize::MAX`, its loop runs that many iterations before returning.
