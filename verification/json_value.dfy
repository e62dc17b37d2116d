/**
 * The JSON document model behind JSON.GET and the recursive field search
 * `find_all_paths`. Objects keep their members as a sequence, in the order
 * the parsed map iterates them.
 */
module JsonValue {

  datatype Json =
    | JNull
    | JBool(b: bool)
    | JNumber(n: int)
    | JString(s: string)
    | JArray(items: seq<Json>)
    | JObject(members: seq<(string, Json)>)

  /**
   * Every object member of the document in depth-first pre-order: members
   * in member order, each one immediately followed by the members nested
   * inside its value; array elements in index order.
   */
  function Entries(j: Json): seq<(string, Json)>
    decreases j, 1
  {
    match j
    case JObject(ms) => MemberEntries(ms, 0)
    case JArray(xs) => ItemEntries(xs, 0)
    case _ => []
  }

  /** The entries of the members `ms[i..]` and of everything inside them. */
  function MemberEntries(ms: seq<(string, Json)>, i: nat): seq<(string, Json)>
    decreases JObject(ms), 0, |ms| - i
  {
    if i >= |ms| then [] else [ms[i]] + Entries(ms[i].1) + MemberEntries(ms, i + 1)
  }

  /** The entries inside the elements `xs[i..]`. */
  function ItemEntries(xs: seq<Json>, i: nat): seq<(string, Json)>
    decreases JArray(xs), 0, |xs| - i
  {
    if i >= |xs| then [] else Entries(xs[i]) + ItemEntries(xs, i + 1)
  }

  /** The values of the entries whose key is `key`, in entry order. */
  function Select(es: seq<(string, Json)>, key: string): (vs: seq<Json>)
    ensures |vs| <= |es|
  {
    if |es| == 0 then []
    else (if es[0].0 == key then [es[0].1] else []) + Select(es[1..], key)
  }

  /** Exactly the values of the entries keyed `key` are selected. */
  lemma {:induction false} SelectMembers(es: seq<(string, Json)>, key: string)
    ensures forall v :: v in Select(es, key) ==> (key, v) in es
    ensures forall e :: e in es && e.0 == key ==> e.1 in Select(es, key)
    decreases |es|
  {
    if |es| > 0 {
      SelectMembers(es[1..], key);
      assert forall e :: e in es ==> e == es[0] || e in es[1..];
    }
  }

  lemma {:induction false} SelectAppend(a: seq<(string, Json)>, b: seq<(string, Json)>, key: string)
    ensures Select(a + b, key) == Select(a, key) + Select(b, key)
    decreases |a|
  {
    if |a| == 0 {
      assert a + b == b;
    } else {
      var ab := a + b;
      assert ab[0] == a[0];
      assert ab[1..] == a[1..] + b;
      SelectAppend(a[1..], b, key);
      var head := if a[0].0 == key then [a[0].1] else [];
      assert Select(ab, key) == head + Select(ab[1..], key);
      assert Select(a, key) == head + Select(a[1..], key);
    }
  }

  lemma AppendAssoc<T>(a: seq<T>, b: seq<T>, c: seq<T>, d: seq<T>)
    ensures a + b + c + d == a + (b + c + d)
  {
  }

  /** The selection from the entries of member `i` onwards, split at member `i`. */
  lemma SelectMemberEntries(ms: seq<(string, Json)>, i: nat, key: string)
    requires i < |ms|
    ensures Select(MemberEntries(ms, i), key)
         == (if ms[i].0 == key then [ms[i].1] else []) + Select(Entries(ms[i].1), key) + Select(MemberEntries(ms, i + 1), key)
  {
    var here, nested, later := [ms[i]], Entries(ms[i].1), MemberEntries(ms, i + 1);
    assert MemberEntries(ms, i) == here + nested + later;
    SelectAppend(here + nested, later, key);
    SelectAppend(here, nested, key);
  }

  /**
   * `find_all_paths(json_value, key, results)`: `acc` is the `results`
   * vector on entry, the result is the vector on exit. Values are only ever
   * appended, and what is appended is the search result proper.
   */
  function FindAllInto(j: Json, key: string, acc: seq<Json>): (r: seq<Json>)
    ensures r == acc + Select(Entries(j), key)
    decreases j, 1
  {
    match j
    case JObject(ms) => MembersInto(ms, 0, key, acc)
    case JArray(xs) => ItemsInto(xs, 0, key, acc)
    case _ => acc
  }

  /** The `for (k, v) in map` loop from member `i` on: push `v` when `k` matches, then search `v`. */
  function MembersInto(ms: seq<(string, Json)>, i: nat, key: string, acc: seq<Json>): (r: seq<Json>)
    ensures r == acc + Select(MemberEntries(ms, i), key)
    decreases JObject(ms), 0, |ms| - i
  {
    if i >= |ms| then acc
    else
      var hit := if ms[i].0 == key then [ms[i].1] else [];
      SelectMemberEntries(ms, i, key);
      AppendAssoc(acc, hit, Select(Entries(ms[i].1), key), Select(MemberEntries(ms, i + 1), key));
      MembersInto(ms, i + 1, key, FindAllInto(ms[i].1, key, acc + hit))
  }

  /** The `for v in arr` loop from element `i` on. */
  function ItemsInto(xs: seq<Json>, i: nat, key: string, acc: seq<Json>): (r: seq<Json>)
    ensures r == acc + Select(ItemEntries(xs, i), key)
    decreases JArray(xs), 0, |xs| - i
  {
    if i >= |xs| then acc
    else
      SelectAppend(Entries(xs[i]), ItemEntries(xs, i + 1), key);
      ItemsInto(xs, i + 1, key, FindAllInto(xs[i], key, acc))
  }

  /** The search as JSON.GET starts it, with an empty `results` vector. */
  function FindAll(j: Json, key: string): (vs: seq<Json>)
    ensures vs == Select(Entries(j), key)
  {
    FindAllInto(j, key, [])
  }

  /**
   * The search finds the value of every entry keyed `key` anywhere in the
   * document, and nothing else; a scalar document has no entries.
   */
  lemma FindAllMembers(j: Json, key: string)
    ensures forall v :: v in FindAll(j, key) ==> (key, v) in Entries(j)
    ensures forall e :: e in Entries(j) && e.0 == key ==> e.1 in FindAll(j, key)
    ensures !(j.JObject? || j.JArray?) ==> FindAll(j, key) == []
  {
    SelectMembers(Entries(j), key);
  }

  /** The search never shrinks or rewrites what `results` already held. */
  lemma FindAllIntoExtends(j: Json, key: string, acc: seq<Json>)
    ensures FindAllInto(j, key, acc) == acc + FindAll(j, key)
    ensures FindAllInto(j, key, acc)[..|acc|] == acc
  {
  }

  lemma {:induction false} MemberEntriesShift(ms: seq<(string, Json)>, i: nat)
    requires i <= |ms|
    ensures MemberEntries(ms, i) == MemberEntries(ms[i..], 0)
    decreases |ms| - i
  {
    if i < |ms| {
      MemberEntriesShift(ms, i + 1);
      MemberEntriesShift(ms[i..], 1);
      assert ms[i..][1..] == ms[i + 1..];
    }
  }

  lemma {:induction false} MemberEntriesAppend(a: seq<(string, Json)>, b: seq<(string, Json)>, i: nat)
    requires i <= |a|
    ensures MemberEntries(a + b, i) == MemberEntries(a, i) + MemberEntries(b, 0)
    decreases |a| - i
  {
    if i == |a| {
      MemberEntriesShift(a + b, i);
      assert (a + b)[i..] == b;
    } else {
      MemberEntriesAppend(a, b, i + 1);
      assert (a + b)[i] == a[i];
    }
  }

  lemma {:induction false} ItemEntriesShift(xs: seq<Json>, i: nat)
    requires i <= |xs|
    ensures ItemEntries(xs, i) == ItemEntries(xs[i..], 0)
    decreases |xs| - i
  {
    if i < |xs| {
      ItemEntriesShift(xs, i + 1);
      ItemEntriesShift(xs[i..], 1);
      assert xs[i..][1..] == xs[i + 1..];
    }
  }

  lemma {:induction false} ItemEntriesAppend(a: seq<Json>, b: seq<Json>, i: nat)
    requires i <= |a|
    ensures ItemEntries(a + b, i) == ItemEntries(a, i) + ItemEntries(b, 0)
    decreases |a| - i
  {
    if i == |a| {
      ItemEntriesShift(a + b, i);
      assert (a + b)[i..] == b;
    } else {
      ItemEntriesAppend(a, b, i + 1);
      assert (a + b)[i] == a[i];
    }
  }

  /**
   * Search order inside an object: the matches among the members before
   * member `i`, then member `i` itself when its key matches (parent first),
   * then the matches nested in its value, then those of the later members.
   */
  lemma FindAllObjectOrder(ms: seq<(string, Json)>, i: nat, key: string)
    requires i < |ms|
    ensures FindAll(JObject(ms), key)
         == FindAll(JObject(ms[..i]), key)
          + (if ms[i].0 == key then [ms[i].1] else [])
          + FindAll(ms[i].1, key)
          + FindAll(JObject(ms[i + 1..]), key)
  {
    ObjectSelectSplit(ms, i, key);
  }

  lemma ObjectSelectSplit(ms: seq<(string, Json)>, i: nat, key: string)
    requires i < |ms|
    ensures Select(Entries(JObject(ms)), key)
         == Select(Entries(JObject(ms[..i])), key)
          + (if ms[i].0 == key then [ms[i].1] else [])
          + Select(Entries(ms[i].1), key)
          + Select(Entries(JObject(ms[i + 1..])), key)
  {
    var before, here, inner, after := Entries(JObject(ms[..i])), [ms[i]], Entries(ms[i].1), Entries(JObject(ms[i + 1..]));
    ObjectEntriesSplit(ms, i);
    SelectAppend3(before, here + inner, after, key);
    SelectAppend(here, inner, key);
  }

  lemma ObjectEntriesSplit(ms: seq<(string, Json)>, i: nat)
    requires i < |ms|
    ensures Entries(JObject(ms)) == Entries(JObject(ms[..i])) + ([ms[i]] + Entries(ms[i].1)) + Entries(JObject(ms[i + 1..]))
  {
    var pre, mid := ms[..i], ms[i..];
    assert ms == pre + mid;
    MemberEntriesAppend(pre, mid, 0);
    MemberEntriesShift(mid, 1);
    assert mid[1..] == ms[i + 1..];
  }

  lemma SelectAppend3(a: seq<(string, Json)>, b: seq<(string, Json)>, c: seq<(string, Json)>, key: string)
    ensures Select(a + b + c, key) == Select(a, key) + Select(b, key) + Select(c, key)
  {
    SelectAppend(a + b, c, key);
    SelectAppend(a, b, key);
  }

  /** Search order inside an array: element by element, in index order. */
  lemma FindAllArrayOrder(xs: seq<Json>, i: nat, key: string)
    requires i < |xs|
    ensures FindAll(JArray(xs), key)
         == FindAll(JArray(xs[..i]), key) + FindAll(xs[i], key) + FindAll(JArray(xs[i + 1..]), key)
  {
    ArrayEntriesSplit(xs, i);
    SelectAppend3(ItemEntries(xs[..i], 0), Entries(xs[i]), ItemEntries(xs[i + 1..], 0), key);
  }

  lemma ArrayEntriesSplit(xs: seq<Json>, i: nat)
    requires i < |xs|
    ensures Entries(JArray(xs)) == ItemEntries(xs[..i], 0) + Entries(xs[i]) + ItemEntries(xs[i + 1..], 0)
  {
    var pre, mid := xs[..i], xs[i..];
    assert xs == pre + mid;
    ItemEntriesAppend(pre, mid, 0);
    ItemEntriesShift(mid, 1);
    assert mid[1..] == xs[i + 1..];
  }

  /** The document `{"a":{"b":1},"c":{"b":2}}` searched for `b` yields `[1, 2]`: outer members first to last, depth first. */
  lemma FindAllExample()
    ensures FindAll(JObject([("a", JObject([("b", JNumber(1))])), ("c", JObject([("b", JNumber(2))]))]), "b")
         == [JNumber(1), JNumber(2)]
  {
    var a, c := JObject([("b", JNumber(1))]), JObject([("b", JNumber(2))]);
    var doc := JObject([("a", a), ("c", c)]);
    assert Entries(JNumber(1)) == [] && Entries(JNumber(2)) == [];
    assert Entries(a) == [("b", JNumber(1))];
    assert Entries(c) == [("b", JNumber(2))];
    assert MemberEntries([("a", a), ("c", c)], 1) == [("c", c), ("b", JNumber(2))];
    assert Entries(doc) == [("a", a), ("b", JNumber(1)), ("c", c), ("b", JNumber(2))];
  }
}
