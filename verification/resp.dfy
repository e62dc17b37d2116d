/**
 * The request frame decoder `parse_resp_bulk_string` and the client-side
 * encoding it is meant to invert:
 *
 *   *<count>\r\n $<len>\r\n<arg>\r\n ... $<len>\r\n<arg>\r\n
 *
 * Decoding is best effort: a bad count line yields no arguments at all, and an
 * argument whose `$<len>` header is malformed or disagrees with the argument's
 * length is dropped while the remaining ones are still decoded.
 */
module Resp {
  import opened Wrappers
  import opened Text

  const Crlf: string := "\r\n"

  /** `str::split("\r\n")`: left-to-right, non-overlapping; always at least one part. */
  function SplitLines(s: string): (parts: seq<string>)
    ensures |parts| >= 1
    ensures parts[0] <= s
    ensures forall k :: 0 <= k < |parts| ==> NoCrlf(parts[k])
  {
    SplitFromPrefix(s, "");
    SplitFromNoCrlf(s, "");
    SplitFrom(s, "")
  }

  /** Splitting the rest of the input `s` while `cur` holds the part read so far. */
  function SplitFrom(s: string, cur: string): (parts: seq<string>)
    ensures |parts| >= 1
    decreases |s|
  {
    if |s| == 0 then [cur]
    else if |s| >= 2 && s[0] == '\r' && s[1] == '\n' then [cur] + SplitFrom(s[2..], "")
    else SplitFrom(s[1..], cur + [s[0]])
  }

  /** The first part extends what was read so far and is a prefix of the whole. */
  lemma {:induction false} SplitFromPrefix(s: string, cur: string)
    ensures cur <= SplitFrom(s, cur)[0] <= cur + s
    decreases |s|
  {
    if |s| == 0 {
    } else if |s| >= 2 && s[0] == '\r' && s[1] == '\n' {
    } else {
      SplitFromPrefix(s[1..], cur + [s[0]]);
      assert cur + [s[0]] + s[1..] == cur + s;
    }
  }

  /**
   * No part contains CRLF: a `\r` is kept in a part only when no `\n`
   * follows it, so every CRLF in the input is a separator.
   */
  lemma {:induction false} SplitFromNoCrlf(s: string, cur: string)
    requires NoCrlf(cur)
    requires |cur| > 0 && cur[|cur| - 1] == '\r' ==> |s| == 0 || s[0] != '\n'
    ensures forall k :: 0 <= k < |SplitFrom(s, cur)| ==> NoCrlf(SplitFrom(s, cur)[k])
    decreases |s|
  {
    if |s| == 0 {
    } else if |s| >= 2 && s[0] == '\r' && s[1] == '\n' {
      SplitFromNoCrlf(s[2..], "");
      assert SplitFrom(s, cur) == [cur] + SplitFrom(s[2..], "");
    } else {
      var next := cur + [s[0]];
      assert NoCrlf(next) by {
        forall i | 0 <= i < |next| - 1
          ensures !(next[i] == '\r' && next[i + 1] == '\n')
        {
          if i < |cur| - 1 {
            assert next[i] == cur[i] && next[i + 1] == cur[i + 1];
          }
        }
      }
      assert s[0] == '\r' ==> |s[1..]| == 0 || s[1..][0] != '\n';
      SplitFromNoCrlf(s[1..], next);
    }
  }

  /** Joining parts with CRLF, the inverse of splitting. */
  function JoinLines(parts: seq<string>): string
    requires |parts| >= 1
    decreases |parts|
  {
    if |parts| == 1 then parts[0] else parts[0] + Crlf + JoinLines(parts[1..])
  }

  /** Splitting loses nothing: joining the parts back gives the input. */
  lemma {:induction false} JoinSplitFrom(s: string, cur: string)
    ensures JoinLines(SplitFrom(s, cur)) == cur + s
    decreases |s|
  {
    if |s| == 0 {
    } else if |s| >= 2 && s[0] == '\r' && s[1] == '\n' {
      var rest := SplitFrom(s[2..], "");
      JoinSplitFrom(s[2..], "");
      assert SplitFrom(s, cur) == [cur] + rest;
      assert ([cur] + rest)[1..] == rest;
      assert JoinLines([cur] + rest) == cur + Crlf + JoinLines(rest);
      assert s == Crlf + s[2..];
    } else {
      JoinSplitFrom(s[1..], cur + [s[0]]);
      assert cur + [s[0]] + s[1..] == cur + s;
    }
  }

  lemma JoinSplit(s: string)
    ensures JoinLines(SplitLines(s)) == s
  {
    JoinSplitFrom(s, "");
  }

  /** A CRLF-free rest of input ends the current part. */
  lemma {:induction false} SplitWhole(line: string, cur: string)
    requires NoCrlf(line)
    ensures SplitFrom(line, cur) == [cur + line]
    decreases |line|
  {
    if |line| > 0 {
      assert !(|line| >= 2 && line[0] == '\r' && line[1] == '\n');
      assert NoCrlf(line[1..]) by {
        forall i | 0 <= i < |line[1..]| - 1
          ensures !(line[1..][i] == '\r' && line[1..][i + 1] == '\n')
        {
          assert line[1..][i] == line[i + 1] && line[1..][i + 1] == line[i + 2];
        }
      }
      SplitWhole(line[1..], cur + [line[0]]);
      assert cur + [line[0]] + line[1..] == cur + line;
    } else {
      assert cur + line == cur;
    }
  }

  /**
   * Round trip the other way: joining CRLF-free parts and splitting gives
   * the parts back, so `split` is the only CRLF-free split that joins to
   * its input.
   */
  lemma {:induction false} SplitJoin(parts: seq<string>)
    requires |parts| >= 1
    requires forall k :: 0 <= k < |parts| ==> NoCrlf(parts[k])
    ensures SplitLines(JoinLines(parts)) == parts
    decreases |parts|
  {
    if |parts| == 1 {
      SplitWhole(parts[0], "");
      assert "" + parts[0] == parts[0];
    } else {
      var rest := parts[1..];
      SplitJoin(rest);
      SplitLine(parts[0], JoinLines(rest), "");
      assert "" + parts[0] == parts[0];
      assert parts == [parts[0]] + rest;
    }
  }

  /** A CRLF-free line followed by CRLF splits off as exactly one part. */
  lemma {:induction false} SplitLine(line: string, rest: string, cur: string)
    requires NoCrlf(line)
    ensures SplitFrom(line + Crlf + rest, cur) == [cur + line] + SplitFrom(rest, "")
    decreases |line|
  {
    var s := line + Crlf + rest;
    if |line| == 0 {
      assert s == Crlf + rest;
      assert s[0] == '\r' && s[1] == '\n';
      assert s[2..] == rest;
      assert cur + line == cur;
    } else {
      assert s[0] == line[0];
      assert |s| >= 2 && s[1] == (if |line| >= 2 then line[1] else '\r');
      assert s[1..] == line[1..] + Crlf + rest;
      SplitLine(line[1..], rest, cur + [line[0]]);
      assert cur + [line[0]] + line[1..] == cur + line;
    }
  }

  /** The count line `*<N>`; `None` when the prefix or the number is wrong. */
  function ParseCount(line: string): (count: Option<nat>)
    ensures count.Some? <==> |line| > 0 && line[0] == '*' && ParseUnsigned(line[1..], UsizeMax).Some?
    ensures count.Some? ==> |line| > 0 && line[0] == '*' && count.value <= UsizeMax
    ensures count.Some? ==> || (AllDigits(line[1..]) && count.value == DigitsValue(line[1..]))
                            || (|line| > 2 && line[1] == '+' && AllDigits(line[2..]) && count.value == DigitsValue(line[2..]))
  {
    if |line| > 0 && line[0] == '*' then ParseUnsigned(line[1..], UsizeMax) else None
  }

  /** Round trip: `*` followed by any in-range count in decimal announces that count. */
  lemma ParseCountOfNat(n: nat)
    requires n <= UsizeMax
    ensures ParseCount("*" + NatToString(n)) == Some(n)
  {
    assert ("*" + NatToString(n))[1..] == NatToString(n);
    ParseUnsignedOfNat(n, UsizeMax);
  }

  /** The header line `$<L>` announces exactly the length of `value`. */
  predicate HeaderMatches(header: string, value: string) {
    |header| > 0 && header[0] == '$' && ParseUnsigned(header[1..], UsizeMax) == Some(|value|)
  }

  /** Slot `i` of a split frame: its header is part `2i+1`, its value part `2i+2`. */
  function Slot(parts: seq<string>, i: nat): (arg: Option<string>)
    ensures arg.Some? ==> 2 * i + 2 < |parts| && arg.value == parts[2 * i + 2]
    ensures arg.Some? <==> 2 * i + 2 < |parts| && HeaderMatches(parts[2 * i + 1], parts[2 * i + 2])
  {
    if 2 * i + 2 < |parts| && HeaderMatches(parts[2 * i + 1], parts[2 * i + 2]) then Some(parts[2 * i + 2])
    else None
  }

  /** The `for i in 0..count` loop: the well-formed slots from `i` on, in frame order. */
  function CollectSlots(parts: seq<string>, i: nat, count: nat): (args: seq<string>)
    ensures |args| <= count - i || (i >= count && args == [])
    ensures forall a :: a in args ==> exists j :: i <= j < count && Slot(parts, j) == Some(a)
    decreases count - i
  {
    if i >= count then []
    else
      var rest := CollectSlots(parts, i + 1, count);
      match Slot(parts, i)
      case Some(v) => [v] + rest
      case None => rest
  }

  /** `parse_resp_bulk_string`. */
  function Decode(input: string): (args: seq<string>)
    ensures (|input| == 0 || input[0] != '*') ==> args == []
    ensures ParseCount(SplitLines(input)[0]).None? ==> args == []
    ensures ParseCount(SplitLines(input)[0]).Some? ==> |args| <= ParseCount(SplitLines(input)[0]).value
  {
    var parts := SplitLines(input);
    match ParseCount(parts[0])
    case None => []
    case Some(count) => CollectSlots(parts, 0, count)
  }

  /** One argument slot as written on the wire: a header line and a value line. */
  datatype Item = Item(header: string, value: string)

  predicate WellFormed(item: Item) {
    HeaderMatches(item.header, item.value)
  }

  /** The values of the well-formed items, in order. */
  function Kept(items: seq<Item>): (values: seq<string>)
    ensures |values| <= |items|
  {
    if |items| == 0 then []
    else (if WellFormed(items[0]) then [items[0].value] else []) + Kept(items[1..])
  }

  /** Every kept value is the value of some well-formed item. */
  lemma {:induction false} KeptSound(items: seq<Item>, v: string)
    requires v in Kept(items)
    ensures exists k :: 0 <= k < |items| && WellFormed(items[k]) && items[k].value == v
    decreases |items|
  {
    if |items| > 0 {
      if WellFormed(items[0]) && v == items[0].value {
      } else {
        KeptSound(items[1..], v);
        var k :| 0 <= k < |items[1..]| && WellFormed(items[1..][k]) && items[1..][k].value == v;
        assert items[k + 1] == items[1..][k];
      }
    }
  }

  function ItemsText(items: seq<Item>): string {
    if |items| == 0 then "" else items[0].header + Crlf + items[0].value + Crlf + ItemsText(items[1..])
  }

  /** A frame announcing `count` arguments, followed by the given item lines. */
  function FrameText(count: nat, items: seq<Item>): string {
    "*" + NatToString(count) + Crlf + ItemsText(items)
  }

  predicate LineSafe(items: seq<Item>) {
    forall k :: 0 <= k < |items| ==> NoCrlf(items[k].header) && NoCrlf(items[k].value)
  }

  /** The lines of the item section: header, value, header, value, ... */
  function ItemLines(items: seq<Item>): (lines: seq<string>)
    ensures |lines| == 2 * |items|
    ensures forall k :: 0 <= k < |items| ==> lines[2 * k] == items[k].header && lines[2 * k + 1] == items[k].value
  {
    if |items| == 0 then []
    else
      var lines := [items[0].header, items[0].value] + ItemLines(items[1..]);
      assert forall k :: 1 <= k < |items| ==> lines[2 * k] == ItemLines(items[1..])[2 * (k - 1)];
      lines
  }

  /** One header line and one value line split off the front of the item section. */
  lemma SplitItem(h: string, v: string, tail: string)
    requires NoCrlf(h) && NoCrlf(v)
    ensures SplitFrom(h + Crlf + v + Crlf + tail, "") == [h, v] + SplitFrom(tail, "")
  {
    var x := v + Crlf + tail;
    assert h + Crlf + v + Crlf + tail == h + Crlf + x;
    SplitLine(h, x, "");
    SplitLine(v, tail, "");
    assert "" + h == h && "" + v == v;
  }

  lemma {:induction false} SplitItems(items: seq<Item>)
    requires LineSafe(items)
    ensures SplitFrom(ItemsText(items), "") == ItemLines(items) + [""]
    decreases |items|
  {
    if |items| == 0 {
      assert ItemsText(items) == "";
    } else {
      var tail := ItemsText(items[1..]);
      SplitItem(items[0].header, items[0].value, tail);
      assert LineSafe(items[1..]);
      SplitItems(items[1..]);
      assert ItemLines(items) == [items[0].header, items[0].value] + ItemLines(items[1..]);
    }
  }

  lemma SplitFrame(count: nat, items: seq<Item>)
    requires LineSafe(items)
    ensures SplitLines(FrameText(count, items)) == ["*" + NatToString(count)] + ItemLines(items) + [""]
  {
    DigitsHaveNoCrlf(NatToString(count));
    var head := "*" + NatToString(count);
    assert NoCrlf(head);
    assert FrameText(count, items) == head + Crlf + ItemsText(items);
    SplitLine(head, ItemsText(items), "");
    assert "" + head == head;
    SplitItems(items);
  }

  function Min(a: nat, b: nat): nat {
    if a <= b then a else b
  }

  /** Slots past the end of the frame contribute nothing. */
  lemma {:induction false} CollectPastEnd(parts: seq<string>, i: nat, count: nat)
    requires 2 * i + 2 >= |parts|
    ensures CollectSlots(parts, i, count) == []
    decreases count - i
  {
    if i < count {
      CollectPastEnd(parts, i + 1, count);
    }
  }

  lemma {:induction false} CollectFrame(items: seq<Item>, parts: seq<string>, i: nat, count: nat)
    requires |parts| >= 1 && parts == [parts[0]] + ItemLines(items) + [""]
    requires i <= Min(count, |items|)
    ensures CollectSlots(parts, i, count) == Kept(items[i..Min(count, |items|)])
    decreases Min(count, |items|) - i
  {
    var lim := Min(count, |items|);
    if i == lim {
      if i < count {
        CollectPastEnd(parts, i + 1, count);
      }
    } else {
      assert parts[2 * i + 1] == items[i].header && parts[2 * i + 2] == items[i].value;
      CollectFrame(items, parts, i + 1, count);
      assert items[i..lim][1..] == items[i + 1..lim];
    }
  }

  /** The lines after the count line taken two by two as header and value; an unpaired last line makes no item. */
  function PairLines(lines: seq<string>): (items: seq<Item>)
    ensures |items| == |lines| / 2
  {
    seq(|lines| / 2, k requires 0 <= k < |lines| / 2 => Item(lines[2 * k], lines[2 * k + 1]))
  }

  lemma {:induction false} CollectPairs(parts: seq<string>, i: nat, count: nat)
    requires |parts| >= 1
    requires i <= Min(count, (|parts| - 1) / 2)
    ensures CollectSlots(parts, i, count) == Kept(PairLines(parts[1..])[i..Min(count, (|parts| - 1) / 2)])
    decreases Min(count, (|parts| - 1) / 2) - i
  {
    var items := PairLines(parts[1..]);
    var lim := Min(count, |items|);
    if i == lim {
      if i < count {
        CollectPastEnd(parts, i, count);
      }
    } else {
      assert items[i] == Item(parts[2 * i + 1], parts[2 * i + 2]);
      CollectPairs(parts, i + 1, count);
      assert items[i..lim][1..] == items[i + 1..lim];
    }
  }

  /**
   * Decoding any input, however its lines fall: once the first line is a
   * valid count, the arguments are the values of the well-formed
   * header/value pairs among the first `count` pairs of lines after it, in
   * order; pairs the input does not contain are simply absent.
   */
  lemma DecodeSplit(input: string)
    ensures var parts := SplitLines(input);
            ParseCount(parts[0]).Some? ==>
              Decode(input) == Kept(PairLines(parts[1..])[..Min(ParseCount(parts[0]).value, (|parts| - 1) / 2)])
  {
    var parts := SplitLines(input);
    if ParseCount(parts[0]).Some? {
      CollectPairs(parts, 0, ParseCount(parts[0]).value);
    }
  }

  /**
   * Decoding a frame keeps exactly the well-formed items among the first
   * `count` ones, in frame order: a missing, malformed or mismatching header
   * loses only its own argument.
   */
  lemma DecodeFrame(count: nat, items: seq<Item>)
    requires count <= UsizeMax
    requires LineSafe(items)
    ensures Decode(FrameText(count, items)) == Kept(items[..Min(count, |items|)])
  {
    var parts := SplitLines(FrameText(count, items));
    SplitFrame(count, items);
    ParseUnsignedOfNat(count, UsizeMax);
    assert ("*" + NatToString(count))[1..] == NatToString(count);
    assert ParseCount(parts[0]) == Some(count);
    CollectFrame(items, parts, 0, count);
  }

  /** The wire form a client produces for an argument list. */
  function Encode(args: seq<string>): string {
    FrameText(|args|, ItemsOf(args))
  }

  function ItemsOf(args: seq<string>): (items: seq<Item>)
    ensures |items| == |args|
    ensures forall k :: 0 <= k < |args| ==> items[k] == Item("$" + NatToString(|args[k]|), args[k])
  {
    seq(|args|, k requires 0 <= k < |args| => Item("$" + NatToString(|args[k]|), args[k]))
  }

  lemma {:induction false} KeptAll(items: seq<Item>)
    requires forall k :: 0 <= k < |items| ==> WellFormed(items[k])
    ensures Kept(items) == seq(|items|, k requires 0 <= k < |items| => items[k].value)
    decreases |items|
  {
    if |items| > 0 {
      KeptAll(items[1..]);
    }
  }

  /** Round trip: decoding the encoding of CRLF-free arguments gives them back. */
  lemma DecodeEncode(args: seq<string>)
    requires |args| <= UsizeMax
    requires forall k :: 0 <= k < |args| ==> NoCrlf(args[k]) && |args[k]| <= UsizeMax
    ensures Decode(Encode(args)) == args
  {
    var items := ItemsOf(args);
    forall k | 0 <= k < |items|
      ensures WellFormed(items[k]) && NoCrlf(items[k].header)
    {
      ParseUnsignedOfNat(|args[k]|, UsizeMax);
      assert items[k].header[1..] == NatToString(|args[k]|);
      DigitsHaveNoCrlf(NatToString(|args[k]|));
    }
    DecodeFrame(|args|, items);
    assert items[..Min(|args|, |items|)] == items;
    KeptAll(items);
  }

  /** Keeping well-formed items distributes over concatenation. */
  lemma {:induction false} KeptAppend(a: seq<Item>, b: seq<Item>)
    ensures Kept(a + b) == Kept(a) + Kept(b)
    decreases |a|
  {
    if |a| == 0 {
      assert a + b == b;
    } else {
      var head := if WellFormed(a[0]) then [a[0].value] else [];
      assert (a + b)[0] == a[0];
      assert (a + b)[1..] == a[1..] + b;
      assert Kept(a + b) == head + Kept(a[1..] + b);
      KeptAppend(a[1..], b);
    }
  }

  /** A malformed item contributes nothing: the kept values around it are concatenated. */
  lemma {:induction false} KeptSkipsBad(items: seq<Item>, bad: nat)
    requires bad < |items| && !WellFormed(items[bad])
    ensures Kept(items) == Kept(items[..bad]) + Kept(items[bad + 1..])
    decreases bad
  {
    if bad == 0 {
      assert items[..0] == [];
    } else {
      var head := if WellFormed(items[0]) then [items[0].value] else [];
      KeptSkipsBad(items[1..], bad - 1);
      assert items[1..][..bad - 1] == items[1..bad];
      assert items[1..][bad..] == items[bad + 1..];
      assert items[..bad][0] == items[0] && items[..bad][1..] == items[1..bad];
      assert Kept(items[..bad]) == head + Kept(items[1..bad]);
    }
  }


  /** Dropping one argument's well-formedness drops exactly that argument. */
  lemma KeptAllButOne(items: seq<Item>, bad: nat)
    requires bad < |items|
    requires !WellFormed(items[bad])
    requires forall k :: 0 <= k < |items| && k != bad ==> WellFormed(items[k])
    ensures Kept(items) == Kept(items[..bad]) + Kept(items[bad + 1..])
    ensures |Kept(items)| == |items| - 1
  {
    var pre, post := items[..bad], items[bad + 1..];
    KeptSkipsBad(items, bad);
    forall k | 0 <= k < |pre|
      ensures WellFormed(pre[k])
    {
      assert pre[k] == items[k];
    }
    forall k | 0 <= k < |post|
      ensures WellFormed(post[k])
    {
      assert post[k] == items[bad + 1 + k];
    }
    KeptAll(pre);
    KeptAll(post);
  }



}
