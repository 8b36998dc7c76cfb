/** The two shapes shared by the hashed and signed byte layouts: a length-prefixed domain tag
    (`with_domain`) and a list of length-prefixed items. */
module Layout {
  import opened Bytes

  // ------------------------------------------------------------------ domain tags

  /** The tag's length as a little-endian u16, which keeps its low sixteen bits, the tag, the message. */
  function WithDomain(tag: seq<byte>, message: seq<byte>): seq<byte> {
    LE(|tag|, 2) + tag + message
  }

  method BuildWithDomain(tag: seq<byte>, message: seq<byte>) returns (out: seq<byte>)
    ensures out == WithDomain(tag, message)
  {
    out := [];
    out := out + LE(|tag|, 2);
    out := out + tag;
    out := out + message;
  }

  /** Tags below 2^16 bytes never let two (tag, message) pairs coincide. */
  lemma TagsBind(tag: seq<byte>, message: seq<byte>, tag': seq<byte>, message': seq<byte>)
    requires |tag| <= U16_MAX && |tag'| <= U16_MAX
    requires WithDomain(tag, message) == WithDomain(tag', message')
    ensures tag == tag' && message == message'
  {
    Widths();
    SplitEqual(LE(|tag|, 2), tag + message, LE(|tag'|, 2), tag' + message') by {
      assert LE(|tag|, 2) + tag + message == LE(|tag|, 2) + (tag + message);
      assert LE(|tag'|, 2) + tag' + message' == LE(|tag'|, 2) + (tag' + message');
    }
    LEInjective(|tag|, |tag'|, 2);
    SplitEqual(tag, message, tag', message');
  }

  lemma TwoBytes(q: nat, hi: byte, lo: byte)
    ensures LE(0x1_0000 * q + 256 * hi + lo, 2) == [lo, hi]
  {
    var n := 0x1_0000 * q + 256 * hi + lo;
    assert n % 256 == lo && n / 256 == 256 * q + hi;
    assert LE(n / 256, 1) == [hi] + LE(q, 0) by { assert (256 * q + hi) % 256 == hi; }
  }

  lemma LEModulo(n: nat)
    ensures LE(n, 2) == LE(n % 0x1_0000, 2)
  {
    var m := n % 0x1_0000;
    TwoBytes(n / 0x1_0000, m / 256, m % 256);
    TwoBytes(0, m / 256, m % 256);
  }

  /** And only such tags: a tag keeps its message apart from every other tag's exactly when its length
      fits the prefix. */
  lemma TagUnambiguousIff(tag: seq<byte>)
    ensures |tag| <= U16_MAX <==>
            forall message, tag', message' ::
              |tag'| <= U16_MAX && WithDomain(tag, message) == WithDomain(tag', message') ==> tag == tag'
  {
    if |tag| <= U16_MAX {
      forall message, tag', message' | |tag'| <= U16_MAX && WithDomain(tag, message) == WithDomain(tag', message')
        ensures tag == tag'
      {
        TagsBind(tag, message, tag', message');
      }
    } else {
      var k := |tag| % 0x1_0000;
      LEModulo(|tag|);
      assert LE(|tag|, 2) + tag + [] == LE(k, 2) + tag[..k] + tag[k..];
      assert WithDomain(tag, []) == WithDomain(tag[..k], tag[k..]);
      assert |tag[..k]| != |tag|;
    }
  }

  // ------------------------------------------------------------------ lists of length-prefixed items

  /** A fixed-width head, a variable body preceded by its length as a big-endian u32, a fixed-width tail. */
  datatype Item = Item(head: seq<byte>, body: seq<byte>, tail: seq<byte>)

  predicate Fits(item: Item, h: nat, t: nat) {
    |item.head| == h && |item.tail| == t && |item.body| <= U32_MAX
  }

  predicate AllFit(items: seq<Item>, h: nat, t: nat) {
    forall i :: 0 <= i < |items| ==> Fits(items[i], h, t)
  }

  function ItemBytes(item: Item): seq<byte> {
    item.head + BE(|item.body|, 4) + item.body + item.tail
  }

  function ItemsBytes(items: seq<Item>): seq<byte> {
    if items == [] then [] else ItemBytes(items[0]) + ItemsBytes(items[1..])
  }

  lemma {:induction false} ItemsBytesSnoc(items: seq<Item>, item: Item)
    ensures ItemsBytes(items + [item]) == ItemsBytes(items) + ItemBytes(item)
  {
    if items == [] {
      assert [item][1..] == [];
    } else {
      ItemsBytesSnoc(items[1..], item);
      assert (items + [item])[1..] == items[1..] + [item];
      Associative(ItemBytes(items[0]), ItemsBytes(items[1..]), ItemBytes(item));
    }
  }

  lemma AppendParts(start: seq<byte>, a: seq<byte>, b: seq<byte>, c: seq<byte>, d: seq<byte>, e: seq<byte>)
    ensures start + a + b + c + d + e == start + (a + (b + c + d + e))
  {
  }

  /** Appending an item's four parts in turn writes the longer list. */
  lemma AppendItem(start: seq<byte>, items: seq<Item>, item: Item)
    ensures start + ItemsBytes(items) + item.head + BE(|item.body|, 4) + item.body + item.tail
            == start + ItemsBytes(items + [item])
  {
    AppendParts(start, ItemsBytes(items), item.head, BE(|item.body|, 4), item.body, item.tail);
    ItemsBytesSnoc(items, item);
  }

  lemma AppendNext(start: seq<byte>, items: seq<Item>, i: nat)
    requires i < |items|
    ensures var item := items[i];
            start + ItemsBytes(items[..i]) + item.head + BE(|item.body|, 4) + item.body + item.tail
            == start + ItemsBytes(items[..i + 1])
  {
    AppendItem(start, items[..i], items[i]);
    assert items[..i] + [items[i]] == items[..i + 1];
  }

  /** The first item of a byte string and what follows it. */
  function TakeItem(bs: seq<byte>, h: nat, t: nat): (r: Option<(Item, seq<byte>)>)
    ensures r.Some? ==> |r.value.1| < |bs| && Fits(r.value.0, h, t)
  {
    if |bs| < h + 4 then None
    else
      var n := FromBE(bs[h..h + 4]);
      Widths();
      if |bs| < h + 4 + n + t then None
      else Some((Item(bs[..h], bs[h + 4..h + 4 + n], bs[h + 4 + n..h + 4 + n + t]), bs[h + 4 + n + t..]))
  }

  function ParseItems(bs: seq<byte>, h: nat, t: nat): Option<seq<Item>>
    decreases |bs|
  {
    if bs == [] then Some([])
    else
      var first := TakeItem(bs, h, t);
      if first.None? then None
      else
        var rest := ParseItems(first.value.1, h, t);
        if rest.None? then None else Some([first.value.0] + rest.value)
  }

  lemma TakeWritten(item: Item, rest: seq<byte>, h: nat, t: nat)
    requires Fits(item, h, t)
    ensures TakeItem(ItemBytes(item) + rest, h, t) == Some((item, rest))
  {
    var bs, n := ItemBytes(item) + rest, |item.body|;
    Widths();
    BERoundTrip(n, 4);
    assert bs[..h] == item.head;
    assert bs[h..h + 4] == BE(n, 4);
    assert bs[h + 4..h + 4 + n] == item.body;
    assert bs[h + 4 + n..h + 4 + n + t] == item.tail;
    assert bs[h + 4 + n + t..] == rest;
  }

  lemma WriteTaken(bs: seq<byte>, h: nat, t: nat)
    requires TakeItem(bs, h, t).Some?
    ensures var (item, rest) := TakeItem(bs, h, t).value; ItemBytes(item) + rest == bs
  {
    var n := FromBE(bs[h..h + 4]);
    BEOfFromBE(bs[h..h + 4]);
    assert bs == bs[..h] + bs[h..h + 4] + bs[h + 4..h + 4 + n] + bs[h + 4 + n..h + 4 + n + t] + bs[h + 4 + n + t..];
  }

  /** Reading back a written list gives the list, however long. */
  lemma {:induction false} ParseWritten(items: seq<Item>, h: nat, t: nat)
    requires AllFit(items, h, t)
    ensures ParseItems(ItemsBytes(items), h, t) == Some(items)
  {
    if items != [] {
      var item, rest := items[0], items[1..];
      ParseWritten(rest, h, t);
      assert TakeItem(ItemsBytes(items), h, t) == Some((item, ItemsBytes(rest))) by {
        TakeWritten(item, ItemsBytes(rest), h, t);
      }
      assert ItemsBytes(items) != [];
      assert items == [item] + rest;
    }
  }

  /** Whatever the reader accepts is a written list. */
  lemma {:induction false} WriteParsed(bs: seq<byte>, h: nat, t: nat)
    requires ParseItems(bs, h, t).Some?
    ensures AllFit(ParseItems(bs, h, t).value, h, t)
    ensures ItemsBytes(ParseItems(bs, h, t).value) == bs
    decreases |bs|
  {
    if bs != [] {
      var (item, rest) := TakeItem(bs, h, t).value;
      WriteTaken(bs, h, t);
      WriteParsed(rest, h, t);
      var items := ParseItems(bs, h, t).value;
      assert items[1..] == ParseItems(rest, h, t).value;
    }
  }

  lemma ItemsBind(a: seq<Item>, b: seq<Item>, h: nat, t: nat)
    requires AllFit(a, h, t) && AllFit(b, h, t) && ItemsBytes(a) == ItemsBytes(b)
    ensures a == b
  {
    ParseWritten(a, h, t);
    ParseWritten(b, h, t);
  }
}
