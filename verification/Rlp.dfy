/** Recursive length prefix encoding (Appendix B of the Ethereum Yellow Paper): the auditor's
    encoder and its strict one-item decoder. */
module Rlp {
  import opened Hashing

  /** Payloads of this length or more have no encoding. */
  const LENGTH_LIMIT := 0x1_0000_0000_0000_0000

  // --------------------------------------------------------------- integers

  /** The shortest big-endian form: `n.to_bytes((n.bit_length()+7)//8, "big")`. */
  function BigEndian(n: nat): seq<byte> {
    if n == 0 then [] else BigEndian(n / 256) + [n % 256]
  }

  /** `int.from_bytes(s, "big")`. */
  function FromBigEndian(s: seq<byte>): nat {
    FromDigits(s, |s|)
  }

  /** The number that the first `k` digits spell. */
  function FromDigits(s: seq<byte>, k: nat): nat
    requires k <= |s|
  {
    if k == 0 then 0 else 256 * FromDigits(s, k - 1) + s[k - 1]
  }

  lemma {:induction false} FromDigitsPrefix(s: seq<byte>, t: seq<byte>, k: nat)
    requires k <= |s| && k <= |t| && s[..k] == t[..k]
    ensures FromDigits(s, k) == FromDigits(t, k)
  {
    if k > 0 {
      assert s[..k - 1] == s[..k][..k - 1] == t[..k - 1];
      assert s[k - 1] == s[..k][k - 1] == t[k - 1];
      FromDigitsPrefix(s, t, k - 1);
    }
  }

  lemma {:induction false} BigEndianInverse(n: nat)
    ensures FromBigEndian(BigEndian(n)) == n
    ensures n > 0 ==> BigEndian(n) != [] && BigEndian(n)[0] != 0
  {
    if n > 0 {
      BigEndianInverse(n / 256);
      var s, init := BigEndian(n), BigEndian(n / 256);
      assert s[..|init|] == init[..|init|];
      FromDigitsPrefix(s, init, |init|);
    }
  }

  lemma {:induction false} BigEndianCanonical(s: seq<byte>)
    requires s != [] ==> s[0] != 0
    ensures BigEndian(FromBigEndian(s)) == s
    ensures s != [] ==> FromBigEndian(s) > 0
  {
    if s != [] {
      var init := s[..|s| - 1];
      BigEndianCanonical(init);
      assert s[..|init|] == init[..|init|];
      FromDigitsPrefix(s, init, |init|);
      var n := FromBigEndian(s);
      assert n / 256 == FromBigEndian(init) && n % 256 == s[|s| - 1];
      assert s == init + [s[|s| - 1]];
    }
  }

  ghost function Pow256(k: nat): (p: nat)
    ensures p >= 1
  {
    if k == 0 then 1 else 256 * Pow256(k - 1)
  }

  lemma {:induction false} BigEndianWidth(n: nat, k: nat)
    ensures |BigEndian(n)| <= k <==> n < Pow256(k)
  {
    if k > 0 && n > 0 { BigEndianWidth(n / 256, k - 1); }
  }

  lemma {:induction false} LimitIsEightBytes()
    ensures Pow256(8) == LENGTH_LIMIT
  {
    assert Pow256(8) == 256 * Pow256(7) == 65536 * Pow256(6) == 0x100_0000 * Pow256(5) == 0x1_0000_0000 * Pow256(4);
    assert Pow256(4) == 256 * Pow256(3) == 65536 * Pow256(2) == 0x100_0000 * Pow256(1);
  }

  // ---------------------------------------------------------------- encoding

  function Offset(isList: bool): byte {
    if isList then 0xc0 else 0x80
  }

  /** Length prefix of a payload of `n` bytes. */
  function Header(isList: bool, n: nat): seq<byte>
    requires n < LENGTH_LIMIT
  {
    if n < 56 then [Offset(isList) + n]
    else
      LongHeaderWidth(n);
      [Offset(isList) + 55 + |BigEndian(n)|] + BigEndian(n)
  }

  lemma {:induction false} LongHeaderWidth(n: nat)
    requires 0 < n < LENGTH_LIMIT
    ensures 1 <= |BigEndian(n)| <= 8
  {
    LimitIsEightBytes();
    BigEndianWidth(n, 8);
  }

  /** One item: a byte string, or a list with the given payload. */
  function EncodeItem(isList: bool, payload: seq<byte>): seq<byte>
    requires |payload| < LENGTH_LIMIT
  {
    if !isList && |payload| == 1 && payload[0] < 0x80 then payload
    else Header(isList, |payload|) + payload
  }

  // ---------------------------------------------------------------- decoding

  datatype Item = Item(payload: seq<byte>, isList: bool, end: nat)

  /** `rlp_item`: the item that starts at `start`, or nothing if it is truncated or not in its
      one canonical form. */
  function ReadItem(raw: seq<byte>, start: nat): Option<Item> {
    if start >= |raw| then None
    else
      var prefix := raw[start];
      if prefix < 0x80 then Some(Item(raw[start..start + 1], false, start + 1))
      else
        var isList := prefix >= 0xc0;
        var size := prefix - Offset(isList);
        if size <= 55 then ReadPayload(raw, start + 1, size, isList)
        else
          var width := size - 55;
          var long := ReadLength(raw, start + 1, width);
          if long.None? then None else ReadPayload(raw, start + 1 + width, long.value, isList)
  }

  /** A long length: `width` digits without a leading zero, for a value that needs them. */
  function ReadLength(raw: seq<byte>, position: nat, width: nat): (n: Option<nat>)
    requires width > 0
    ensures n.Some? ==> position + width <= |raw|
  {
    if position + width > |raw| || raw[position] == 0 then None
    else
      var n := FromBigEndian(raw[position..position + width]);
      if n < 56 then None else Some(n)
  }

  function ReadPayload(raw: seq<byte>, position: nat, size: nat, isList: bool): Option<Item> {
    var end := position + size;
    if end > |raw| then None
    else if !isList && size == 1 && raw[position] < 0x80 then None
    else Some(Item(raw[position..end], isList, end))
  }

  /** `code` is in `raw` at `start`. */
  ghost predicate At(raw: seq<byte>, start: nat, code: seq<byte>) {
    start + |code| <= |raw| && raw[start..start + |code|] == code
  }

  lemma {:induction false} AtSplit(raw: seq<byte>, start: nat, a: seq<byte>, b: seq<byte>)
    ensures At(raw, start, a + b) <==> At(raw, start, a) && At(raw, start + |a|, b)
  {
    if At(raw, start, a + b) {
      assert raw[start..start + |a|] == (a + b)[..|a|];
      assert raw[start + |a|..start + |a + b|] == (a + b)[|a|..];
    }
  }

  lemma {:induction false} AtFirst(raw: seq<byte>, start: nat, code: seq<byte>)
    requires code != [] && At(raw, start, code)
    ensures start < |raw| && raw[start] == code[0]
  {
    assert raw[start..start + |code|][0] == raw[start];
  }

  lemma {:induction false} ReadPayloadAt(raw: seq<byte>, position: nat, payload: seq<byte>, isList: bool)
    requires At(raw, position, payload)
    requires isList || |payload| != 1 || payload[0] >= 0x80
    ensures ReadPayload(raw, position, |payload|, isList) == Some(Item(payload, isList, position + |payload|))
  {
    if |payload| == 1 { AtFirst(raw, position, payload); }
  }

  lemma {:induction false} ReadLengthAt(raw: seq<byte>, position: nat, digits: seq<byte>)
    requires digits != [] && digits[0] != 0 && FromBigEndian(digits) >= 56 && At(raw, position, digits)
    ensures ReadLength(raw, position, |digits|) == Some(FromBigEndian(digits))
  {
    AtFirst(raw, position, digits);
  }

  lemma {:induction false} ReadLongAt(raw: seq<byte>, start: nat, isList: bool, width: nat, payload: seq<byte>)
    requires 1 <= width <= 8 && |payload| >= 56
    requires At(raw, start, [Offset(isList) + 55 + width])
    requires ReadLength(raw, start + 1, width) == Some(|payload|)
    requires At(raw, start + 1 + width, payload)
    ensures ReadItem(raw, start) == Some(Item(payload, isList, start + 1 + width + |payload|))
  {
    AtFirst(raw, start, [Offset(isList) + 55 + width]);
    ReadPayloadAt(raw, start + 1 + width, payload, isList);
  }

  lemma {:induction false} ReadLongWith(raw: seq<byte>, start: nat, isList: bool, digits: seq<byte>, payload: seq<byte>)
    requires 1 <= |digits| <= 8 && digits[0] != 0 && FromBigEndian(digits) == |payload| && |payload| >= 56
    requires At(raw, start, [Offset(isList) + 55 + |digits|] + digits + payload)
    ensures ReadItem(raw, start) == Some(Item(payload, isList, start + 1 + |digits| + |payload|))
  {
    var prefix: byte := Offset(isList) + 55 + |digits|;
    assert At(raw, start, [prefix]) && At(raw, start + 1, digits) && At(raw, start + 1 + |digits|, payload) by {
      AtSplit(raw, start, [prefix] + digits, payload);
      AtSplit(raw, start, [prefix], digits);
    }
    ReadLengthAt(raw, start + 1, digits);
    ReadLongAt(raw, start, isList, |digits|, payload);
  }

  lemma {:induction false} ReadLong(raw: seq<byte>, start: nat, isList: bool, payload: seq<byte>)
    requires 56 <= |payload| < LENGTH_LIMIT && At(raw, start, EncodeItem(isList, payload))
    ensures ReadItem(raw, start) == Some(Item(payload, isList, start + |EncodeItem(isList, payload)|))
  {
    LongHeaderWidth(|payload|);
    BigEndianInverse(|payload|);
    ReadLongWith(raw, start, isList, BigEndian(|payload|), payload);
  }

  lemma {:induction false} ReadShort(raw: seq<byte>, start: nat, isList: bool, payload: seq<byte>)
    requires |payload| < 56 && At(raw, start, EncodeItem(isList, payload))
    ensures ReadItem(raw, start) == Some(Item(payload, isList, start + |EncodeItem(isList, payload)|))
  {
    AtFirst(raw, start, EncodeItem(isList, payload));
    if isList || |payload| != 1 || payload[0] >= 0x80 {
      var prefix: byte := Offset(isList) + |payload|;
      AtSplit(raw, start, [prefix], payload);
      assert isList == (prefix >= 0xc0);
      ReadPayloadAt(raw, start + 1, payload, isList);
    }
  }

  /** Decoding inverts encoding, wherever the item stands in the input. */
  lemma {:induction false} ReadInvertsEncode(raw: seq<byte>, start: nat, isList: bool, payload: seq<byte>)
    requires |payload| < LENGTH_LIMIT && At(raw, start, EncodeItem(isList, payload))
    ensures ReadItem(raw, start) == Some(Item(payload, isList, start + |EncodeItem(isList, payload)|))
  {
    if |payload| < 56 { ReadShort(raw, start, isList, payload); } else { ReadLong(raw, start, isList, payload); }
  }

  /** Every accepted item is spelled exactly as the encoder spells it. */
  lemma {:induction false} ReadIsCanonical(raw: seq<byte>, start: nat)
    requires ReadItem(raw, start).Some?
    ensures
      var item := ReadItem(raw, start).value;
      && start < item.end <= |raw|
      && |item.payload| < LENGTH_LIMIT
      && raw[start..item.end] == EncodeItem(item.isList, item.payload)
  {
    var item := ReadItem(raw, start).value;
    var prefix := raw[start];
    if prefix >= 0x80 {
      var size := prefix - Offset(item.isList);
      if size > 55 {
        LongIsCanonical(raw, start);
      } else {
        assert raw[start..item.end] == [prefix] + item.payload;
      }
    }
  }

  lemma {:induction false} LongIsCanonical(raw: seq<byte>, start: nat)
    requires ReadItem(raw, start).Some? && raw[start] >= 0x80
    requires raw[start] - Offset(raw[start] >= 0xc0) > 55
    ensures
      var item := ReadItem(raw, start).value;
      && start < item.end <= |raw|
      && |item.payload| < LENGTH_LIMIT
      && raw[start..item.end] == EncodeItem(item.isList, item.payload)
  {
    var item := ReadItem(raw, start).value;
    var width := raw[start] - Offset(item.isList) - 55;
    var digits := raw[start + 1..start + 1 + width];
    assert start + 1 + width <= item.end <= |raw| && item.payload == raw[start + 1 + width..item.end];
    assert FromBigEndian(digits) == |item.payload| && digits[0] != 0 && |digits| == width;
    DigitsAreLength(digits);
    assert raw[start..item.end] == [raw[start]] + digits + item.payload by {
      CutThree(raw, start, start + 1 + width, item.end);
    }
  }

  lemma {:induction false} CutThree(s: seq<byte>, i: nat, j: nat, k: nat)
    requires i < j <= k <= |s|
    ensures s[i..k] == [s[i]] + s[i + 1..j] + s[j..k]
  {
  }

  lemma {:induction false} DigitsAreLength(digits: seq<byte>)
    requires 1 <= |digits| <= 8 && digits[0] != 0
    ensures FromBigEndian(digits) < LENGTH_LIMIT && BigEndian(FromBigEndian(digits)) == digits
  {
    BigEndianCanonical(digits);
    LimitIsEightBytes();
    BigEndianWidth(FromBigEndian(digits), 8);
  }

  /** Items are prefix-free: a byte stream starts with at most one item. */
  lemma {:induction false} ItemsPrefixFree(
    l1: bool, p1: seq<byte>, t1: seq<byte>, l2: bool, p2: seq<byte>, t2: seq<byte>)
    requires |p1| < LENGTH_LIMIT && |p2| < LENGTH_LIMIT
    requires EncodeItem(l1, p1) + t1 == EncodeItem(l2, p2) + t2
    ensures l1 == l2 && p1 == p2 && t1 == t2
  {
    var c1, c2 := EncodeItem(l1, p1), EncodeItem(l2, p2);
    var raw := c1 + t1;
    assert raw[0..|c1|] == c1 && raw[0..|c2|] == c2;
    ReadInvertsEncode(raw, 0, l1, p1);
    ReadInvertsEncode(raw, 0, l2, p2);
    assert t1 == (c1 + t1)[|c1|..] && t2 == (c2 + t2)[|c2|..];
  }

  // ------------------------------------------------------------------ values

  datatype Value =
    | Bytes(bytes: seq<byte>)
    | Int(number: nat)
    | List(items: seq<Value>)

  function Wrap(isList: bool, payload: seq<byte>): Option<seq<byte>> {
    if |payload| < LENGTH_LIMIT then Some(EncodeItem(isList, payload)) else None
  }

  /** `rlp`; nothing when some payload is too long for a length prefix. */
  function Encode(v: Value): Option<seq<byte>> {
    match v
    case Bytes(b) => Wrap(false, b)
    case Int(n) => Wrap(false, BigEndian(n))
    case List(items) =>
      var payload := EncodeAll(items);
      if payload.None? then None else Wrap(true, payload.value)
  }

  /** Items one after the other, with no list around them. */
  function EncodeAll(vs: seq<Value>): Option<seq<byte>> {
    if vs == [] then Some([])
    else
      var first, rest := Encode(vs[0]), EncodeAll(vs[1..]);
      if first.None? || rest.None? then None else Some(first.value + rest.value)
  }

  /** The bytes of a value that is not a list; an integer is its shortest big-endian form. */
  function Raw(v: Value): seq<byte>
    requires !v.List?
  {
    if v.Bytes? then v.bytes else BigEndian(v.number)
  }

  /** Equal up to the spelling of integers as byte strings. */
  ghost predicate Same(v: Value, w: Value) {
    if v.List? then w.List? && SameAll(v.items, w.items) else !w.List? && Raw(v) == Raw(w)
  }

  ghost predicate SameAll(vs: seq<Value>, ws: seq<Value>) {
    |vs| == |ws| && (vs == [] || (Same(vs[0], ws[0]) && SameAll(vs[1..], ws[1..])))
  }

  function Payload(v: Value): Option<seq<byte>> {
    if v.List? then EncodeAll(v.items) else Some(Raw(v))
  }

  lemma {:induction false} EncodeIsItem(v: Value)
    ensures Encode(v).Some? <==> Payload(v).Some? && |Payload(v).value| < LENGTH_LIMIT
    ensures Encode(v).Some? ==> Encode(v).value == EncodeItem(v.List?, Payload(v).value) && Encode(v).value != []
  {
  }

  /** Unique decodability of a stream without an outer list. */
  lemma {:induction false} StreamUnique(vs: seq<Value>, ws: seq<Value>)
    requires EncodeAll(vs).Some? && EncodeAll(vs) == EncodeAll(ws)
    ensures SameAll(vs, ws)
    decreases vs
  {
    if vs != [] { EncodeIsItem(vs[0]); }
    if ws != [] { EncodeIsItem(ws[0]); }
    if vs != [] && ws != [] {
      var v, w := vs[0], ws[0];
      ItemsPrefixFree(v.List?, Payload(v).value, EncodeAll(vs[1..]).value,
                      w.List?, Payload(w).value, EncodeAll(ws[1..]).value);
      if v.List? { StreamUnique(v.items, w.items); }
      StreamUnique(vs[1..], ws[1..]);
    }
  }

  // ------------------------------------------------------------- reading back

  /** The item is this value. */
  ghost predicate ItemIs(item: Item, v: Value)
    decreases v
  {
    match v
    case Bytes(b) => !item.isList && item.payload == b
    case Int(n) => !item.isList && item.payload == BigEndian(n)
    case List(vs) => item.isList && ItemsAre(item.payload, 0, vs)
  }

  /** The items read from `start` to the end are these values. */
  ghost predicate ItemsAre(raw: seq<byte>, start: nat, vs: seq<Value>)
    decreases vs
  {
    if vs == [] then start == |raw|
    else
      var item := ReadItem(raw, start);
      item.Some? && ItemIs(item.value, vs[0]) && ItemsAre(raw, item.value.end, vs[1..])
  }

  lemma {:induction false} ReadFirst(raw: seq<byte>, start: nat, vs: seq<Value>) returns (item: Item)
    requires start <= |raw| && vs != [] && EncodeAll(vs) == Some(raw[start..])
    ensures ReadItem(raw, start) == Some(item) && item.end <= |raw| && |item.payload| < LENGTH_LIMIT
    ensures Encode(vs[0]) == Some(EncodeItem(item.isList, item.payload))
    ensures EncodeAll(vs[1..]) == Some(raw[item.end..])
  {
    var v, rest := vs[0], EncodeAll(vs[1..]).value;
    EncodeIsItem(v);
    FirstRead(raw, start, v.List?, Payload(v).value, rest);
    item := ReadItem(raw, start).value;
    ReadIsCanonical(raw, start);
  }

  lemma {:induction false} EncodeStep(raw: seq<byte>, start: nat, end: nat, vs: seq<Value>)
    requires start <= end <= |raw| && vs != []
    requires Encode(vs[0]) == Some(raw[start..end]) && EncodeAll(vs[1..]) == Some(raw[end..])
    ensures EncodeAll(vs) == Some(raw[start..])
  {
    assert raw[start..] == raw[start..end] + raw[end..];
  }

  /** Reading undoes encoding, for values of any depth, and nothing else reads as them. */
  lemma {:induction false} ItemsExactly(raw: seq<byte>, start: nat, vs: seq<Value>)
    requires start <= |raw|
    ensures ItemsAre(raw, start, vs) <==> EncodeAll(vs) == Some(raw[start..])
    decreases vs
  {
    if vs == [] {
      assert |raw[start..]| == |raw| - start;
    } else {
      if ItemsAre(raw, start, vs) {
        var item := ReadItem(raw, start).value;
        assert start <= item.end <= |raw| && Encode(vs[0]) == Some(raw[start..item.end]) by {
          ReadIsCanonical(raw, start);
          ItemExactly(item, vs[0]);
        }
        assert EncodeAll(vs[1..]) == Some(raw[item.end..]) by { ItemsExactly(raw, item.end, vs[1..]); }
        EncodeStep(raw, start, item.end, vs);
      }
      if EncodeAll(vs) == Some(raw[start..]) {
        var item := ReadFirst(raw, start, vs);
        assert ItemIs(item, vs[0]) by { ItemExactly(item, vs[0]); }
        assert ItemsAre(raw, item.end, vs[1..]) by { ItemsExactly(raw, item.end, vs[1..]); }
      }
    }
  }

  lemma {:induction false} ItemExactly(item: Item, v: Value)
    requires |item.payload| < LENGTH_LIMIT
    ensures ItemIs(item, v) <==> item.isList == v.List? && Payload(v) == Some(item.payload)
    ensures ItemIs(item, v) <==> Encode(v) == Some(EncodeItem(item.isList, item.payload))
    decreases v
  {
    if v.List? {
      ItemsExactly(item.payload, 0, v.items);
      assert item.payload[0..] == item.payload;
    }
    EncodeIsItem(v);
    if Encode(v) == Some(EncodeItem(item.isList, item.payload)) {
      var p := Payload(v).value;
      assert EncodeItem(v.List?, p) + [] == EncodeItem(item.isList, item.payload) + [];
      ItemsPrefixFree(v.List?, p, [], item.isList, item.payload, []);
    }
  }

  lemma {:induction false} FirstRead(raw: seq<byte>, start: nat, isList: bool, payload: seq<byte>, rest: seq<byte>)
    requires start <= |raw| && |payload| < LENGTH_LIMIT && raw[start..] == EncodeItem(isList, payload) + rest
    ensures ReadItem(raw, start) == Some(Item(payload, isList, start + |EncodeItem(isList, payload)|))
    ensures raw[start + |EncodeItem(isList, payload)|..] == rest
  {
    var code := EncodeItem(isList, payload);
    assert raw[start..start + |code|] == raw[start..][..|code|] == code;
    assert raw[start + |code|..] == raw[start..][|code|..] == rest;
    ReadInvertsEncode(raw, start, isList, payload);
  }
}
