/** Native block headers: one RLP list of byte strings with fixed widths. */
module NativeHeader {
  import opened Hashing
  import opened Rlp

  type Fields = seq<seq<byte>>

  const MIN_FIELDS := 15
  const MAX_FIELDS := 23

  const PARENT_HASH := 0
  const STATE_ROOT := 3
  const TRANSACTIONS_ROOT := 4
  const RECEIPTS_ROOT := 5
  const NUMBER := 8
  const GAS_USED := 10

  /** Fields of fixed width. */
  const WIDTHS: map<nat, nat> := map[0 := 32, 1 := 32, 2 := 20, 3 := 32, 4 := 32, 5 := 32, 6 := 256, 13 := 32, 14 := 8]

  /** Fields that hold integers without leading zeros. */
  const INTEGERS: set<nat> := {7, 8, 9, 10, 11, 15, 17, 18}

  /** Optional hashes. */
  const OPTIONAL_HASHES: set<nat> := {16, 19, 20, 21, 22}

  predicate IntegerOk(index: nat, value: seq<byte>) {
    |value| <= (if index == 7 then 32 else 8) && (value != [] ==> value[0] != 0)
  }

  predicate WidthOk(index: nat, value: seq<byte>) {
    && (index in WIDTHS ==> |value| == WIDTHS[index])
    && (index in INTEGERS ==> IntegerOk(index, value))
    && (index in OPTIONAL_HASHES ==> |value| == 0 || |value| == 32)
  }

  predicate WidthsFrom(fields: Fields, index: nat)
    requires index <= |fields|
    decreases |fields| - index
  {
    index == |fields| || (WidthOk(index, fields[index]) && WidthsFrom(fields, index + 1))
  }

  /** The widths that the header format demands; all fields of fixed width are among the first
      fifteen. */
  predicate WidthsOk(fields: Fields) {
    MIN_FIELDS <= |fields| <= MAX_FIELDS && WidthsFrom(fields, 0)
  }

  lemma {:induction false} WidthsAt(fields: Fields, i: nat)
    requires i <= |fields|
    ensures WidthsFrom(fields, i) <==> forall j: nat :: i <= j < |fields| ==> WidthOk(j, fields[j])
    decreases |fields| - i
  {
    if i < |fields| { WidthsAt(fields, i + 1); }
  }

  /** At most `width` bytes, and no leading zero. */
  predicate Plain(value: seq<byte>, width: nat) {
    |value| <= width && (|value| > 0 ==> value[0] != 0)
  }

  /** The header format, field by field: only the extra data, at index 12, may be anything. */
  predicate Laid(f: Fields) {
    && 15 <= |f| <= 23
    && |f[0]| == |f[1]| == |f[3]| == |f[4]| == |f[5]| == |f[13]| == 32 && |f[2]| == 20 && |f[6]| == 256 && |f[14]| == 8
    && Plain(f[7], 32) && Plain(f[8], 8) && Plain(f[9], 8) && Plain(f[10], 8) && Plain(f[11], 8)
    && (|f| > 15 ==> Plain(f[15], 8)) && (|f| > 17 ==> Plain(f[17], 8)) && (|f| > 18 ==> Plain(f[18], 8))
    && (|f| > 16 ==> |f[16]| in {0, 32}) && (|f| > 19 ==> |f[19]| in {0, 32}) && (|f| > 20 ==> |f[20]| in {0, 32})
    && (|f| > 21 ==> |f[21]| in {0, 32}) && (|f| > 22 ==> |f[22]| in {0, 32})
  }

  lemma {:induction false} WidthsExactly(fields: Fields)
    ensures WidthsOk(fields) <==> Laid(fields)
  {
    WidthsAt(fields, 0);
    if Laid(fields) {
      forall j: nat | j < |fields| ensures WidthOk(j, fields[j]) { LaidAt(fields, j); }
    } else if 15 <= |fields| <= 23 && forall j: nat :: j < |fields| ==> WidthOk(j, fields[j]) {
      FieldsLaid(fields);
    }
  }

  lemma {:induction false} LaidAt(fields: Fields, j: nat)
    requires Laid(fields) && j < |fields|
    ensures WidthOk(j, fields[j])
  {
  }

  lemma {:induction false} FieldsLaid(f: Fields)
    requires 15 <= |f| <= 23 && forall j: nat :: j < |f| ==> WidthOk(j, f[j])
    ensures Laid(f)
  {
  }

  /** The fields one after the other. */
  function JoinFields(fields: Fields): Option<seq<byte>> {
    if fields == [] then Some([])
    else
      var first, rest := Wrap(false, fields[0]), JoinFields(fields[1..]);
      if first.None? || rest.None? then None else Some(first.value + rest.value)
  }

  function AsValue(fields: Fields): Value {
    List(AsItems(fields))
  }

  function AsItems(fields: Fields): seq<Value> {
    if fields == [] then [] else [Bytes(fields[0])] + AsItems(fields[1..])
  }

  /** `raw` is the header with these fields, and nothing after it. */
  ghost predicate Spells(raw: seq<byte>, fields: Fields) {
    EncodeAll([AsValue(fields)]) == Some(raw)
  }

  lemma {:induction false} SpellsIsEncode(raw: seq<byte>, fields: Fields)
    ensures Spells(raw, fields) <==> Encode(AsValue(fields)) == Some(raw)
  {
    var v := AsValue(fields);
    assert [v][0] == v && [v][1..] == [];
    assert EncodeAll([]) == Some([]);
    if Encode(v).Some? { assert Encode(v).value + [] == Encode(v).value; }
  }

  lemma {:induction false} JoinIsEncode(fields: Fields)
    ensures JoinFields(fields) == EncodeAll(AsItems(fields))
  {
    if fields != [] {
      JoinIsEncode(fields[1..]);
      assert AsItems(fields)[1..] == AsItems(fields[1..]);
    }
  }

  /** Splits the list payload from `position` on into its fields. */
  function SplitFields(payload: seq<byte>, position: nat): (fields: Option<Fields>)
    requires position <= |payload|
    decreases |payload| - position
  {
    if position == |payload| then Some([])
    else
      var item := ReadItem(payload, position);
      if item.None? || item.value.isList then None
      else
        ReadIsCanonical(payload, position);
        var rest := SplitFields(payload, item.value.end);
        if rest.None? then None else Some([item.value.payload] + rest.value)
  }

  /** Splitting finds exactly the fields that were joined. */
  lemma {:induction false} SplitInvertsJoin(payload: seq<byte>, position: nat, fields: Fields)
    requires position <= |payload| && JoinFields(fields) == Some(payload[position..])
    ensures SplitFields(payload, position) == Some(fields)
    decreases |fields|
  {
    if fields != [] {
      var first, rest := EncodeItem(false, fields[0]), JoinFields(fields[1..]);
      var next := position + |first|;
      assert rest.Some? && payload[position..] == first + rest.value;
      FirstOfTail(payload, position, first, rest.value);
      assert ReadItem(payload, position) == Some(Item(fields[0], false, next)) by {
        ReadInvertsEncode(payload, position, false, fields[0]);
      }
      assert SplitFields(payload, next) == Some(fields[1..]) by { SplitInvertsJoin(payload, next, fields[1..]); }
      assert next > position by { ReadIsCanonical(payload, position); }
      assert fields == [fields[0]] + fields[1..];
    }
  }

  lemma {:induction false} FirstOfTail(payload: seq<byte>, position: nat, first: seq<byte>, rest: seq<byte>)
    requires position <= |payload| && payload[position..] == first + rest
    ensures position + |first| <= |payload| && payload[position..position + |first|] == first
    ensures payload[position + |first|..] == rest
  {
    assert payload[position..position + |first|] == payload[position..][..|first|];
    assert payload[position + |first|..] == payload[position..][|first|..];
  }

  lemma {:induction false} JoinOne(field: seq<byte>, rest: Fields, code: seq<byte>, tail: seq<byte>)
    requires Wrap(false, field) == Some(code) && JoinFields(rest) == Some(tail)
    ensures JoinFields([field] + rest) == Some(code + tail)
  {
    assert ([field] + rest)[1..] == rest;
  }

  /** And it accepts nothing but a joined field list. */
  lemma {:induction false} SplitIsCanonical(payload: seq<byte>, position: nat)
    requires position <= |payload| && SplitFields(payload, position).Some?
    ensures JoinFields(SplitFields(payload, position).value) == Some(payload[position..])
    decreases |payload| - position
  {
    if position < |payload| {
      var item := ReadItem(payload, position).value;
      ReadIsCanonical(payload, position);
      var fields, rest := SplitFields(payload, position).value, SplitFields(payload, item.end).value;
      assert fields == [item.payload] + rest;
      assert JoinFields(rest) == Some(payload[item.end..]) by { SplitIsCanonical(payload, item.end); }
      assert JoinFields(fields) == Some(payload[position..item.end] + payload[item.end..]) by {
        JoinOne(item.payload, rest, payload[position..item.end], payload[item.end..]);
      }
      assert payload[position..] == payload[position..item.end] + payload[item.end..] by {
        Cut(payload, position, item.end);
      }
    } else {
      assert payload[position..] == [];
    }
  }

  lemma {:induction false} Cut(s: seq<byte>, i: nat, j: nat)
    requires i <= j <= |s|
    ensures s[i..] == s[i..j] + s[j..]
  {
  }

  ghost function After(done: Fields, rest: Option<Fields>): Option<Fields> {
    if rest.None? then None else Some(done + rest.value)
  }

  lemma {:induction false} AfterNothing(rest: Option<Fields>)
    ensures After([], rest) == rest
  {
    if rest.Some? { assert [] + rest.value == rest.value; }
  }

  lemma {:induction false} AfterStep(done: Fields, field: seq<byte>, rest: Option<Fields>)
    ensures After(done, After([field], rest)) == After(done + [field], rest)
  {
    if rest.Some? { assert done + ([field] + rest.value) == (done + [field]) + rest.value; }
  }

  /** The loop of `native_header_fields`: read items up to the end, or up to one too many. */
  method ReadFields(payload: seq<byte>) returns (r: Option<Fields>)
    ensures r.Some? ==> SplitFields(payload, 0) == r && |r.value| <= MAX_FIELDS
    ensures r.None? ==> SplitFields(payload, 0).None? || |SplitFields(payload, 0).value| > MAX_FIELDS
  {
    var fields: Fields, position: nat := [], 0;
    AfterNothing(SplitFields(payload, 0));
    while position < |payload|
      invariant position <= |payload| && |fields| <= MAX_FIELDS
      invariant SplitFields(payload, 0) == After(fields, SplitFields(payload, position))
      decreases |payload| - position
    {
      var item := ReadItem(payload, position);
      if item.None? || item.value.isList {
        return None;
      }
      ReadIsCanonical(payload, position);
      AfterStep(fields, item.value.payload, SplitFields(payload, item.value.end));
      fields := fields + [item.value.payload];
      position := item.value.end;
      if |fields| > MAX_FIELDS {
        return None;
      }
    }
    assert fields + [] == fields;
    return Some(fields);
  }

  /** `native_header_fields`: the strict parser and the encoder are inverse to each other on
      width-valid field lists, and nothing else is accepted. */
  method HeaderFields(raw: seq<byte>) returns (r: Option<Fields>)
    ensures r.Some? ==> WidthsOk(r.value) && Spells(raw, r.value)
    ensures forall fields :: WidthsOk(fields) && Spells(raw, fields) ==> r == Some(fields)
  {
    HeaderUnique(raw);
    var item := ReadItem(raw, 0);
    if item.None? || !item.value.isList || item.value.end != |raw| {
      return None;
    }
    ReadIsCanonical(raw, 0);
    assert raw[0..|raw|] == raw;
    var payload := item.value.payload;
    assert payload[0..] == payload;
    var fields := ReadFields(payload);
    if fields.None? || |fields.value| < MIN_FIELDS {
      return None;
    }
    SplitIsCanonical(payload, 0);
    JoinIsEncode(fields.value);
    SpellsIsEncode(raw, fields.value);
    r := if WidthsOk(fields.value) then fields else None;
  }

  /** Whatever header a byte string spells, splitting its list payload finds it. */
  lemma {:induction false} HeaderUnique(raw: seq<byte>)
    ensures forall fields :: Spells(raw, fields) ==>
              && ReadItem(raw, 0).Some? && ReadItem(raw, 0).value.isList && ReadItem(raw, 0).value.end == |raw|
              && SplitFields(ReadItem(raw, 0).value.payload, 0) == Some(fields)
  {
    forall fields | Spells(raw, fields)
      ensures
        && ReadItem(raw, 0).Some? && ReadItem(raw, 0).value.isList && ReadItem(raw, 0).value.end == |raw|
        && SplitFields(ReadItem(raw, 0).value.payload, 0) == Some(fields)
    {
      SpelledSplits(raw, fields);
    }
  }

  lemma {:induction false} SpelledSplits(raw: seq<byte>, fields: Fields)
    requires Spells(raw, fields)
    ensures JoinFields(fields).Some? && ReadItem(raw, 0) == Some(Item(JoinFields(fields).value, true, |raw|))
    ensures SplitFields(JoinFields(fields).value, 0) == Some(fields)
  {
    var payload := SpelledPayload(raw, fields);
    assert ReadItem(raw, 0) == Some(Item(payload, true, |raw|)) by {
      assert raw[0..|raw|] == raw;
      ReadInvertsEncode(raw, 0, true, payload);
    }
    assert SplitFields(payload, 0) == Some(fields) by {
      assert payload[0..] == payload;
      SplitInvertsJoin(payload, 0, fields);
    }
  }

  lemma {:induction false} SpelledPayload(raw: seq<byte>, fields: Fields) returns (payload: seq<byte>)
    requires Spells(raw, fields)
    ensures JoinFields(fields) == Some(payload) && |payload| < LENGTH_LIMIT && raw == EncodeItem(true, payload)
  {
    SpellsIsEncode(raw, fields);
    JoinIsEncode(fields);
    payload := JoinFields(fields).value;
  }
}
