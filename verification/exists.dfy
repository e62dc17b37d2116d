/** EXISTS: how many of the given key positions name a present key. */
module ExistsCmd {
  import opened Store

  /** Positions of `keys` holding a key of `s`; a repeated key counts at each position. */
  function CountPresent(keys: seq<string>, s: Store): (n: nat)
    ensures n <= |keys|
    ensures n == |keys| <==> forall i :: 0 <= i < |keys| ==> keys[i] in s
    ensures n == 0 <==> forall i :: 0 <= i < |keys| ==> keys[i] !in s
  {
    if |keys| == 0 then 0
    else (if keys[0] in s then 1 else 0) + CountPresent(keys[1..], s)
  }

  lemma {:induction false} CountPresentAppend(a: seq<string>, b: seq<string>, s: Store)
    ensures CountPresent(a + b, s) == CountPresent(a, s) + CountPresent(b, s)
    decreases |a|
  {
    if |a| == 0 {
      assert a + b == b;
    } else {
      assert (a + b)[0] == a[0];
      assert (a + b)[1..] == a[1..] + b;
      CountPresentAppend(a[1..], b, s);
    }
  }

  /** `ExistsCommand::execute`: the `for key in &self.keys` loop over the locked map. */
  method CountKeys(s: Store, keys: seq<string>) returns (count: nat)
    ensures count == CountPresent(keys, s)
  {
    count := 0;
    var i := 0;
    while i < |keys|
      invariant 0 <= i <= |keys|
      invariant count == CountPresent(keys[..i], s)
    {
      CountPresentAppend(keys[..i], [keys[i]], s);
      assert keys[..i + 1] == keys[..i] + [keys[i]];
      if keys[i] in s {
        count := count + 1;
      }
      i := i + 1;
    }
    assert keys[..i] == keys;
  }

  /** EXISTS as one store transition: a read-only count. */
  function Exists(s: Store, keys: seq<string>): (r: Step)
    ensures r.store == s
    ensures r.reply.Integer? && 0 <= r.reply.n <= |keys|
    ensures r.reply.n == CountPresent(keys, s)
  {
    Step(Integer(CountPresent(keys, s)), s)
  }
}
