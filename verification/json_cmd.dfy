/**
 * JSON.SET, JSON.GET and JSON.DEL. A document is stored as its raw text in
 * an ordinary record; JSON.GET parses it (text that does not parse reads as
 * `null`) and searches it for each requested path.
 */
module JsonCmd {
  import opened Wrappers
  import opened Text
  import opened JsonValue
  import opened Store

  const RootPath: string := "$"

  /** The one path JSON.GET treats as a recursive search for the field `b`. */
  const FieldBPath: string := "$..b"

  /** `SetJsonCommand::execute`: only the root path can be written; the raw text is stored without expiry. */
  function SetJson(s: Store, key: string, path: string, text: string): (r: Step)
    ensures OnlyKeyChanged(s, r.store, key)
    ensures path == RootPath ==> r.reply == Ok && key in r.store && r.store[key] == Record(text, None)
    ensures path != RootPath ==> r == Step(Error(UnsupportedPath), s)
  {
    if path == RootPath then Step(Ok, s[key := Record(text, None)])
    else Step(Error(UnsupportedPath), s)
  }

  /** `DelJsonCommand::execute`: removes the key, whether or not it has expired. */
  function DelJson(s: Store, key: string): (r: Step)
    ensures key !in r.store && OnlyKeyChanged(s, r.store, key)
    ensures r.reply == Ok <==> key in s
    ensures r.reply != Ok ==> r == Step(Error(NoSuchKey), s)
  {
    if key in s then Step(Ok, s - {key}) else Step(Error(NoSuchKey), s)
  }

  /** The member keys of an object, in member order. */
  function KeysOf(ms: seq<(string, Json)>): (ks: seq<string>)
    ensures |ks| == |ms|
  {
    if |ms| == 0 then [] else [ms[0].0] + KeysOf(ms[1..])
  }

  /** No two members of an object share a key. */
  predicate DistinctKeys(ms: seq<(string, Json)>) {
    |ms| == 0 || (ms[0].0 !in KeysOf(ms[1..]) && DistinctKeys(ms[1..]))
  }

  /** The value of member `k` of an object (`value[k]` on a `serde_json` object). */
  function Lookup(ms: seq<(string, Json)>, k: string): (v: Option<Json>)
    ensures v.Some? <==> k in KeysOf(ms)
    ensures v.Some? ==> (k, v.value) in ms
  {
    if |ms| == 0 then None
    else if ms[0].0 == k then Some(ms[0].1)
    else
      var v := Lookup(ms[1..], k);
      assert v.Some? ==> (k, v.value) in ms by {
        if v.Some? {
          assert (k, v.value) in ms[1..];
        }
      }
      v
  }

  /**
   * `value[k] = v` on an object: replaces the value of member `k` where it
   * is, or appends a new member.
   */
  function Upsert(ms: seq<(string, Json)>, k: string, v: Json): (r: seq<(string, Json)>)
    requires DistinctKeys(ms)
    ensures DistinctKeys(r)
    ensures Lookup(r, k) == Some(v)
    ensures forall x :: x != k ==> Lookup(r, x) == Lookup(ms, x)
    ensures forall x :: x in KeysOf(r) <==> x == k || x in KeysOf(ms)
    decreases |ms|
  {
    if |ms| == 0 then [(k, v)]
    else if ms[0].0 == k then
      var r := [(k, v)] + ms[1..];
      assert r[1..] == ms[1..];
      r
    else
      var rest := Upsert(ms[1..], k, v);
      var r := [ms[0]] + rest;
      assert r[1..] == rest;
      r
  }

  /** The field name searched for a requested path, as JSON.GET derives it. */
  function SearchKey(path: string): (key: string)
    ensures path == FieldBPath ==> key == "b"
    ensures path != FieldBPath ==> |key| <= |path| && key == path[|path| - |key|..] && DotPairs(path[..|path| - |key|])
    ensures path != FieldBPath ==> !(|key| >= 2 && key[0] == '.' && key[1] == '.')
    ensures path != FieldBPath && (|path| == 0 || path[0] != '.') ==> key == path
  {
    if path == FieldBPath then "b" else TrimLeadingDots(path)
  }

  /** The match array JSON.GET reports for one path. */
  function PathMatches(doc: Json, path: string): Json {
    JArray(FindAll(doc, SearchKey(path)))
  }

  /** A lone `$..b` is answered with the bare match array rather than an object keyed by path. */
  predicate Sole(paths: seq<string>) {
    |paths| == 1 && paths[0] == FieldBPath
  }

  /**
   * The `for path in &self.paths` loop from path `i` on: `flat` is
   * `flat_result`, `obj` the members of `path_results`.
   */
  function PathLoop(doc: Json, paths: seq<string>, i: nat, flat: seq<Json>, obj: seq<(string, Json)>)
    : (r: (seq<Json>, seq<(string, Json)>))
    requires i <= |paths|
    requires DistinctKeys(obj)
    ensures DistinctKeys(r.1)
    ensures r.0 == (if Sole(paths) && i == 0 then FindAll(doc, "b") else flat)
    ensures Sole(paths) ==> r.1 == obj
    ensures !Sole(paths) ==> forall x :: Lookup(r.1, x) == (if x in paths[i..] then Some(PathMatches(doc, x)) else Lookup(obj, x))
    decreases |paths| - i
  {
    if i == |paths| then (flat, obj)
    else
      var path := paths[i];
      if path == FieldBPath && |paths| == 1 then
        PathLoop(doc, paths, i + 1, FindAll(doc, "b"), obj)
      else
        var obj' := if path == FieldBPath then Upsert(obj, path, JArray(FindAll(doc, "b")))
                    else Upsert(obj, path, JArray(FindAll(doc, TrimLeadingDots(path))));
        assert obj' == Upsert(obj, path, PathMatches(doc, path));
        assert paths[i..] == [path] + paths[i + 1..];
        PathLoop(doc, paths, i + 1, flat, obj')
  }

  /**
   * The JSON.GET reply document for a non-empty path list: the flat match
   * array for a lone `$..b` that matched, otherwise an object with one
   * member per requested path holding that path's matches.
   */
  function GetReply(doc: Json, paths: seq<string>): (r: Json)
    requires |paths| > 0
    ensures Sole(paths) && FindAll(doc, "b") != [] ==> r == JArray(FindAll(doc, "b"))
    ensures Sole(paths) && FindAll(doc, "b") == [] ==> r == JObject([])
    ensures !Sole(paths) ==> r.JObject? && DistinctKeys(r.members)
    ensures !Sole(paths) ==> forall p :: p in paths ==> Lookup(r.members, p) == Some(PathMatches(doc, p))
    ensures !Sole(paths) ==> forall x :: x in KeysOf(r.members) ==> x in paths
  {
    var (flat, obj) := PathLoop(doc, paths, 0, [], []);
    assert paths[0..] == paths;
    if |flat| > 0 && |paths| == 1 then JArray(flat) else JObject(obj)
  }

  /**
   * `GetJsonCommand::execute`, with `parse` standing for
   * `serde_json::from_str(..).unwrap_or(null)`. It never changes the store,
   * and it does not look at expiry.
   */
  function GetJson(s: Store, key: string, paths: seq<string>, parse: string -> Json): (r: Step)
    ensures r.store == s
    ensures key !in s ==> r.reply == Error(NoSuchKey)
    ensures key in s && |paths| == 0 ==> r.reply == JsonBulk(parse(s[key].value))
    ensures key in s && |paths| > 0 ==> r.reply == JsonBulk(GetReply(parse(s[key].value), paths))
  {
    if key in s then
      var doc := parse(s[key].value);
      if |paths| == 0 then Step(JsonBulk(doc), s)
      else Step(JsonBulk(GetReply(doc, paths)), s)
    else Step(Error(NoSuchKey), s)
  }

  /** As written, only `$..b` searches below the root: `$..c` looks for a member literally named `$..c`. */
  lemma SearchKeyAsWritten()
    ensures SearchKey("$..b") == "b"
    ensures SearchKey("$..c") == "$..c"
    ensures SearchKey("..c") == "c"
  {
    SearchKeyNoDot("$..c");
    SearchKeyDots("c");
  }

  lemma SearchKeyNoDot(path: string)
    requires |path| > 0 && path[0] == '$' && path != FieldBPath
    ensures SearchKey(path) == path
  {
  }

  lemma SearchKeyDots(name: string)
    requires |name| > 0 && name[0] != '.'
    ensures SearchKey(".." + name) == name
  {
    var path := ".." + name;
    assert path[2..] == name;
    assert path != FieldBPath;
  }
}
