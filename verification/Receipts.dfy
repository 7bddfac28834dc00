/** Receipts of one block: positional checks, gas accounting, and the native receipt root. */
module Receipts {
  import opened Hashing
  import opened Rlp

  datatype Log = Log(address: seq<byte>, topics: seq<seq<byte>>, data: seq<byte>)

  datatype Receipt = Receipt(status: nat, cumulative: nat, logs: seq<Log>)

  // ------------------------------------------------------------ what RPC returns
  // `None` stands for a field that is missing or does not parse.

  datatype RpcLog = RpcLog(
    removedFalse: bool,
    blockHash: Option<Hash>,
    blockNumber: Option<nat>,
    transactionHash: Option<Hash>,
    transactionIndex: Option<nat>,
    logIndex: Option<nat>,
    address: Option<seq<byte>>,
    topics: Option<seq<Option<seq<byte>>>>,
    data: Option<seq<byte>>)

  datatype RpcLogs = NullLogs | NotAList | LogList(items: seq<RpcLog>)

  datatype RpcReceipt = RpcReceipt(
    blockHash: Option<Hash>,
    blockNumber: Option<nat>,
    transactionIndex: Option<nat>,
    transactionHash: Option<Hash>,
    status: Option<nat>,
    cumulativeGasUsed: Option<nat>,
    gasUsed: Option<nat>,
    logs: RpcLogs,
    logsBloom: Option<seq<byte>>)

  /** The block a receipt list is checked against. */
  datatype BlockRef = BlockRef(
    hash: Hash, number: nat, gasUsed: nat, receiptsRoot: Hash, transactions: seq<Hash>)

  const GAS_LIMIT := 0x1_0000_0000_0000_0000
  const BLOOM_BYTES := 256

  // --------------------------------------------------------------- encoding

  function TopicItems(topics: seq<seq<byte>>): seq<Value> {
    if topics == [] then [] else [Bytes(topics[0])] + TopicItems(topics[1..])
  }

  function LogValue(l: Log): Value {
    List([Bytes(l.address), List(TopicItems(l.topics)), Bytes(l.data)])
  }

  function LogItems(logs: seq<Log>): seq<Value> {
    if logs == [] then [] else [LogValue(logs[0])] + LogItems(logs[1..])
  }

  /** A receipt as it enters the stream: no bloom, no typed envelope. */
  function ReceiptValue(r: Receipt): Value {
    List([Int(r.status), Int(r.cumulative), List(LogItems(r.logs))])
  }

  function ReceiptItems(rs: seq<Receipt>): seq<Value> {
    if rs == [] then [] else [ReceiptValue(rs[0])] + ReceiptItems(rs[1..])
  }

  /** The bytes whose hash is the receipt root: receipts one after the other, no outer list. */
  function Stream(rs: seq<Receipt>): Option<seq<byte>> {
    EncodeAll(ReceiptItems(rs))
  }

  lemma {:induction false} TopicsSame(a: seq<seq<byte>>, b: seq<seq<byte>>)
    requires SameAll(TopicItems(a), TopicItems(b))
    ensures a == b
  {
    if a != [] {
      assert TopicItems(a)[1..] == TopicItems(a[1..]) && TopicItems(b)[1..] == TopicItems(b[1..]);
      assert Same(TopicItems(a)[0], TopicItems(b)[0]);
      TopicsSame(a[1..], b[1..]);
      assert a == [a[0]] + a[1..] && b == [b[0]] + b[1..];
    }
  }

  /** Componentwise comparison of two three-item lists. */
  lemma {:induction false} TripleSame(a: Value, b: Value, c: Value, x: Value, y: Value, z: Value)
    requires Same(List([a, b, c]), List([x, y, z]))
    ensures Same(a, x) && Same(b, y) && Same(c, z)
  {
    assert SameAll([a, b, c], [x, y, z]);
    assert [a, b, c][1..] == [b, c] && [x, y, z][1..] == [y, z];
    assert SameAll([b, c], [y, z]);
    assert [b, c][1..] == [c] && [y, z][1..] == [z];
    assert SameAll([c], [z]);
  }

  lemma {:induction false} LogSame(a: Log, b: Log)
    requires Same(LogValue(a), LogValue(b))
    ensures a == b
  {
    TripleSame(Bytes(a.address), List(TopicItems(a.topics)), Bytes(a.data),
               Bytes(b.address), List(TopicItems(b.topics)), Bytes(b.data));
    TopicsSame(a.topics, b.topics);
  }

  lemma {:induction false} LogsSame(a: seq<Log>, b: seq<Log>)
    requires SameAll(LogItems(a), LogItems(b))
    ensures a == b
  {
    if a != [] {
      assert LogItems(a)[1..] == LogItems(a[1..]) && LogItems(b)[1..] == LogItems(b[1..]);
      LogSame(a[0], b[0]);
      LogsSame(a[1..], b[1..]);
      assert a == [a[0]] + a[1..] && b == [b[0]] + b[1..];
    }
  }

  lemma {:induction false} ReceiptSame(a: Receipt, b: Receipt)
    requires Same(ReceiptValue(a), ReceiptValue(b))
    ensures a == b
  {
    TripleSame(Int(a.status), Int(a.cumulative), List(LogItems(a.logs)),
               Int(b.status), Int(b.cumulative), List(LogItems(b.logs)));
    BigEndianInverse(a.status);
    BigEndianInverse(b.status);
    BigEndianInverse(a.cumulative);
    BigEndianInverse(b.cumulative);
    LogsSame(a.logs, b.logs);
  }

  lemma {:induction false} ReceiptsSame(a: seq<Receipt>, b: seq<Receipt>)
    requires SameAll(ReceiptItems(a), ReceiptItems(b))
    ensures a == b
  {
    if a != [] {
      assert ReceiptItems(a)[1..] == ReceiptItems(a[1..]) && ReceiptItems(b)[1..] == ReceiptItems(b[1..]);
      ReceiptSame(a[0], b[0]);
      ReceiptsSame(a[1..], b[1..]);
      assert a == [a[0]] + a[1..] && b == [b[0]] + b[1..];
    }
  }

  /** The stream determines every status, cumulative gas and log. */
  lemma {:induction false} StreamDetermines(a: seq<Receipt>, b: seq<Receipt>)
    requires Stream(a).Some? && Stream(a) == Stream(b)
    ensures a == b
  {
    StreamUnique(ReceiptItems(a), ReceiptItems(b));
    ReceiptsSame(a, b);
  }

  lemma {:induction false} EncodeAllAppend(vs: seq<Value>, w: Value)
    ensures
      var all, init, last := EncodeAll(vs + [w]), EncodeAll(vs), Encode(w);
      all == if init.None? || last.None? then None else Some(init.value + last.value)
  {
    if vs == [] {
      assert [w][1..] == [] && [] + [w] == [w];
      if Encode(w).Some? { assert Encode(w).value + [] == Encode(w).value == [] + Encode(w).value; }
    } else {
      EncodeAllAppend(vs[1..], w);
      assert (vs + [w])[1..] == vs[1..] + [w];
      if Encode(vs[0]).Some? && EncodeAll(vs[1..]).Some? && Encode(w).Some? {
        assert Encode(vs[0]).value + (EncodeAll(vs[1..]).value + Encode(w).value)
            == (Encode(vs[0]).value + EncodeAll(vs[1..]).value) + Encode(w).value;
      }
    }
  }

  lemma {:induction false} ReceiptItemsAppend(rs: seq<Receipt>, r: Receipt)
    ensures ReceiptItems(rs + [r]) == ReceiptItems(rs) + [ReceiptValue(r)]
  {
    if rs == [] {
      assert [r][1..] == [] && [] + [r] == [r];
    } else {
      ReceiptItemsAppend(rs[1..], r);
      assert (rs + [r])[1..] == rs[1..] + [r];
    }
  }

  // ------------------------------------------------------ the stream, read back

  /** The item is this number, without leading zeros. */
  ghost predicate IsNumber(item: Item, n: nat) {
    !item.isList && (item.payload != [] ==> item.payload[0] != 0) && FromBigEndian(item.payload) == n
  }

  ghost predicate IsBytes(item: Item, b: seq<byte>) {
    !item.isList && item.payload == b
  }

  /** The bytes are three items and nothing else. */
  ghost predicate Three(raw: seq<byte>, a: Item, b: Item, c: Item) {
    ReadItem(raw, 0) == Some(a) && ReadItem(raw, a.end) == Some(b) && ReadItem(raw, b.end) == Some(c) && c.end == |raw|
  }

  /** From `start` on the bytes are the topics, in order. */
  ghost predicate ReadsTopics(raw: seq<byte>, start: nat, topics: seq<seq<byte>>)
    decreases |topics|
  {
    if topics == [] then start == |raw|
    else
      var item := ReadItem(raw, start);
      item.Some? && IsBytes(item.value, topics[0]) && ReadsTopics(raw, item.value.end, topics[1..])
  }

  /** The bytes are address, topics and data. */
  ghost predicate ReadsLog(raw: seq<byte>, l: Log) {
    exists a, b, c ::
      && Three(raw, a, b, c) && IsBytes(a, l.address)
      && b.isList && ReadsTopics(b.payload, 0, l.topics) && IsBytes(c, l.data)
  }

  ghost predicate ReadsLogs(raw: seq<byte>, start: nat, logs: seq<Log>)
    decreases |logs|
  {
    if logs == [] then start == |raw|
    else
      var item := ReadItem(raw, start);
      item.Some? && item.value.isList && ReadsLog(item.value.payload, logs[0])
      && ReadsLogs(raw, item.value.end, logs[1..])
  }

  /** The bytes are status, cumulative gas and logs. */
  ghost predicate ReadsReceipt(raw: seq<byte>, r: Receipt) {
    exists a, b, c ::
      && Three(raw, a, b, c) && IsNumber(a, r.status) && IsNumber(b, r.cumulative)
      && c.isList && ReadsLogs(c.payload, 0, r.logs)
  }

  /** From `start` on the bytes are the receipts, one list each, one after the other. */
  ghost predicate ReadsReceipts(raw: seq<byte>, start: nat, rs: seq<Receipt>)
    decreases |rs|
  {
    if rs == [] then start == |raw|
    else
      var item := ReadItem(raw, start);
      item.Some? && item.value.isList && ReadsReceipt(item.value.payload, rs[0])
      && ReadsReceipts(raw, item.value.end, rs[1..])
  }

  lemma {:induction false} NumberExactly(item: Item, n: nat)
    ensures ItemIs(item, Int(n)) <==> IsNumber(item, n)
  {
    BigEndianInverse(n);
    if IsNumber(item, n) { BigEndianCanonical(item.payload); }
  }

  lemma {:induction false} TopicsExactly(raw: seq<byte>, start: nat, topics: seq<seq<byte>>)
    ensures ItemsAre(raw, start, TopicItems(topics)) <==> ReadsTopics(raw, start, topics)
    decreases |topics|
  {
    if topics != [] {
      assert TopicItems(topics)[1..] == TopicItems(topics[1..]);
      if ReadItem(raw, start).Some? { TopicsExactly(raw, ReadItem(raw, start).value.end, topics[1..]); }
    }
  }

  /** Three values in a row. */
  lemma {:induction false} ThreeExactly(raw: seq<byte>, x: Value, y: Value, z: Value)
    ensures ItemsAre(raw, 0, [x, y, z]) <==>
              exists a, b, c :: Three(raw, a, b, c) && ItemIs(a, x) && ItemIs(b, y) && ItemIs(c, z)
  {
    assert [x, y, z][1..] == [y, z] && [y, z][1..] == [z] && [z][1..] == [];
    if ItemsAre(raw, 0, [x, y, z]) {
      var a := ReadItem(raw, 0).value;
      assert ItemsAre(raw, a.end, [y, z]);
      var b := ReadItem(raw, a.end).value;
      assert ItemsAre(raw, b.end, [z]);
      var c := ReadItem(raw, b.end).value;
      assert ItemsAre(raw, c.end, []);
      assert Three(raw, a, b, c);
    }
    if a, b, c :| Three(raw, a, b, c) && ItemIs(a, x) && ItemIs(b, y) && ItemIs(c, z) {
      assert ItemsAre(raw, c.end, []);
      assert ItemsAre(raw, b.end, [z]);
      assert ItemsAre(raw, a.end, [y, z]);
    }
  }

  lemma {:induction false} LogExactly(raw: seq<byte>, l: Log)
    ensures ItemsAre(raw, 0, LogValue(l).items) <==> ReadsLog(raw, l)
  {
    ThreeExactly(raw, Bytes(l.address), List(TopicItems(l.topics)), Bytes(l.data));
    forall b: Item ensures ItemIs(b, List(TopicItems(l.topics))) <==> b.isList && ReadsTopics(b.payload, 0, l.topics) {
      TopicsExactly(b.payload, 0, l.topics);
    }
  }

  lemma {:induction false} LogsExactly(raw: seq<byte>, start: nat, logs: seq<Log>)
    ensures ItemsAre(raw, start, LogItems(logs)) <==> ReadsLogs(raw, start, logs)
    decreases |logs|
  {
    if logs != [] {
      assert LogItems(logs)[1..] == LogItems(logs[1..]);
      if ReadItem(raw, start).Some? {
        var item := ReadItem(raw, start).value;
        LogExactly(item.payload, logs[0]);
        LogsExactly(raw, item.end, logs[1..]);
      }
    }
  }

  lemma {:induction false} ReceiptExactly(raw: seq<byte>, r: Receipt)
    ensures ItemsAre(raw, 0, ReceiptValue(r).items) <==> ReadsReceipt(raw, r)
  {
    ThreeExactly(raw, Int(r.status), Int(r.cumulative), List(LogItems(r.logs)));
    forall a: Item ensures ItemIs(a, Int(r.status)) <==> IsNumber(a, r.status) { NumberExactly(a, r.status); }
    forall b: Item ensures ItemIs(b, Int(r.cumulative)) <==> IsNumber(b, r.cumulative) {
      NumberExactly(b, r.cumulative);
    }
    forall c: Item ensures ItemIs(c, List(LogItems(r.logs))) <==> c.isList && ReadsLogs(c.payload, 0, r.logs) {
      LogsExactly(c.payload, 0, r.logs);
    }
  }

  lemma {:induction false} ReceiptsExactly(raw: seq<byte>, start: nat, rs: seq<Receipt>)
    ensures ItemsAre(raw, start, ReceiptItems(rs)) <==> ReadsReceipts(raw, start, rs)
    decreases |rs|
  {
    if rs != [] {
      assert ReceiptItems(rs)[1..] == ReceiptItems(rs[1..]);
      if ReadItem(raw, start).Some? {
        var item := ReadItem(raw, start).value;
        ReceiptExactly(item.payload, rs[0]);
        ReceiptsExactly(raw, item.end, rs[1..]);
      }
    }
  }

  /** The stream of a list of receipts is the one byte string that reads as these receipts. */
  lemma {:induction false} StreamExactly(rs: seq<Receipt>, raw: seq<byte>)
    ensures Stream(rs) == Some(raw) <==> ReadsReceipts(raw, 0, rs)
  {
    ItemsExactly(raw, 0, ReceiptItems(rs));
    assert raw[0..] == raw;
    ReceiptsExactly(raw, 0, rs);
  }

  /** A plain transfer that is the first of its block. */
  lemma {:induction false} TransferStream()
    ensures Stream([Receipt(1, 21000, [])]) == Some([0xc5, 0x01, 0x82, 0x52, 0x08, 0xc0])
  {
    var raw: seq<byte>, inner: seq<byte> := [0xc5, 0x01, 0x82, 0x52, 0x08, 0xc0], [0x01, 0x82, 0x52, 0x08, 0xc0];
    var r := Receipt(1, 21000, []);
    assert raw[1..6] == inner;
    assert ReadItem(raw, 0) == Some(Item(inner, true, 6));
    var a, b, c := Item([0x01], false, 1), Item([0x52, 0x08], false, 4), Item([], true, 5);
    assert inner[0..1] == [0x01] && inner[2..4] == [0x52, 0x08] && inner[5..5] == [];
    assert Three(inner, a, b, c);
    assert FromBigEndian([0x01]) == 1 && FromBigEndian([0x52, 0x08]) == 21000 by {
      assert [0x52, 0x08][..1] == [0x52] && [0x01][..0] == [] && [0x52][..0] == [];
    }
    assert ReadsReceipt(inner, r);
    assert [r][1..] == [];
    assert ReadsReceipts(raw, 6, []);
    StreamExactly([r], raw);
  }

  // ------------------------------------------------------------------- checks

  /** A log's content, if every field parses and has its width. */
  function CleanLog(l: RpcLog): Option<Log> {
    if l.topics.None? || |l.topics.value| > 4 then None
    else if l.address.None? || |l.address.value| != 20 || l.data.None? then None
    else
      var topics := CleanTopics(l.topics.value);
      if topics.None? then None else Some(Log(l.address.value, topics.value, l.data.value))
  }

  function CleanTopics(ts: seq<Option<seq<byte>>>): Option<seq<seq<byte>>> {
    if ts == [] then Some([])
    else if ts[0].None? || |ts[0].value| != 32 then None
    else
      var rest := CleanTopics(ts[1..]);
      if rest.None? then None else Some([ts[0].value] + rest.value)
  }

  /** The log says it belongs to this transaction, at this index of the block. */
  predicate LogPlaced(l: RpcLog, blk: BlockRef, index: nat, logIndex: nat)
    requires index < |blk.transactions|
  {
    && l.removedFalse
    && l.blockHash == Some(blk.hash) && l.blockNumber == Some(blk.number)
    && l.transactionHash == Some(blk.transactions[index]) && l.transactionIndex == Some(index)
    && l.logIndex == Some(logIndex)
  }

  /** A receipt's logs: `null` counts as none when the bloom is empty. */
  function LogsOf(r: RpcReceipt): Option<seq<RpcLog>> {
    match r.logs
    case LogList(items) => Some(items)
    case NotAList => None
    case NullLogs => if r.logsBloom == Some(seq(BLOOM_BYTES, _ => 0)) then Some([]) else None
  }

  function LogCount(r: RpcReceipt): nat {
    if LogsOf(r).Some? then |LogsOf(r).value| else 0
  }

  /** Logs in the receipts before position `i`. */
  function LogsBefore(rs: seq<RpcReceipt>, i: nat): nat
    requires i <= |rs|
  {
    if i == 0 then 0 else LogsBefore(rs, i - 1) + LogCount(rs[i - 1])
  }

  function Gas(r: RpcReceipt): nat {
    if r.cumulativeGasUsed.Some? then r.cumulativeGasUsed.value else 0
  }

  /** Cumulative gas before position `i`. */
  function GasBefore(rs: seq<RpcReceipt>, i: nat): nat
    requires i <= |rs|
  {
    if i == 0 then 0 else Gas(rs[i - 1])
  }

  /** A receipt's logs are in place and parse, counting from `first`. */
  ghost predicate LogsOk(logs: seq<RpcLog>, blk: BlockRef, index: nat, first: nat)
    requires index < |blk.transactions|
  {
    forall j :: 0 <= j < |logs| ==> LogPlaced(logs[j], blk, index, first + j) && CleanLog(logs[j]).Some?
  }

  /** Receipt `i` is in place, has a binary status, consistent gas and good logs. */
  ghost predicate ReceiptOk(rs: seq<RpcReceipt>, blk: BlockRef, i: nat)
    requires i < |rs| && i < |blk.transactions|
  {
    var r := rs[i];
    && r.blockHash == Some(blk.hash) && r.blockNumber == Some(blk.number)
    && r.transactionIndex == Some(i) && r.transactionHash == Some(blk.transactions[i])
    && (r.status == Some(0) || r.status == Some(1))
    && r.cumulativeGasUsed.Some? && GasBefore(rs, i) <= Gas(r) < GAS_LIMIT
    && r.gasUsed == Some(Gas(r) - GasBefore(rs, i))
    && LogsOf(r).Some? && LogsOk(LogsOf(r).value, blk, i, LogsBefore(rs, i))
  }

  /** The content of well-placed logs. */
  ghost function CleanLogs(logs: seq<RpcLog>): seq<Log> {
    if logs == [] then []
    else
      var last := CleanLog(logs[|logs| - 1]);
      CleanLogs(logs[..|logs| - 1]) + (if last.Some? then [last.value] else [])
  }

  ghost function Clean(r: RpcReceipt): Receipt {
    Receipt(if r.status.Some? then r.status.value else 0, Gas(r),
            CleanLogs(if LogsOf(r).Some? then LogsOf(r).value else []))
  }

  ghost function CleanAll(rs: seq<RpcReceipt>): seq<Receipt> {
    if rs == [] then [] else CleanAll(rs[..|rs| - 1]) + [Clean(rs[|rs| - 1])]
  }

  /** The stream as the receipts are yielded one by one. */
  ghost function StreamTo(rs: seq<RpcReceipt>, i: nat): Option<seq<byte>>
    requires i <= |rs|
  {
    if i == 0 then Some([])
    else
      var init, last := StreamTo(rs, i - 1), Encode(ReceiptValue(Clean(rs[i - 1])));
      if init.None? || last.None? then None else Some(init.value + last.value)
  }

  lemma {:induction false} StreamToIsStream(rs: seq<RpcReceipt>, i: nat)
    requires i <= |rs|
    ensures StreamTo(rs, i) == Stream(CleanAll(rs[..i]))
  {
    if i > 0 {
      StreamToIsStream(rs, i - 1);
      assert rs[..i][..i - 1] == rs[..i - 1];
      ReceiptItemsAppend(CleanAll(rs[..i - 1]), Clean(rs[i - 1]));
      EncodeAllAppend(ReceiptItems(CleanAll(rs[..i - 1])), ReceiptValue(Clean(rs[i - 1])));
    }
  }

  /** A receipt without encoding spoils the whole stream. */
  lemma {:induction false} StreamStaysBroken(rs: seq<RpcReceipt>, i: nat, n: nat)
    requires i <= n <= |rs| && StreamTo(rs, i).None?
    ensures StreamTo(rs, n).None?
  {
    if i < n {
      assert StreamTo(rs, n - 1).None? by { StreamStaysBroken(rs, i, n - 1); }
    }
  }

  /** The first `n` transactions have their receipts, in order. */
  ghost predicate OkTo(rs: seq<RpcReceipt>, blk: BlockRef, n: nat)
    requires n <= |rs| == |blk.transactions|
  {
    n == 0 || (OkTo(rs, blk, n - 1) && ReceiptOk(rs, blk, n - 1))
  }

  /** Every transaction has its receipt, in order. */
  ghost predicate AllOk(rs: seq<RpcReceipt>, blk: BlockRef) {
    |rs| == |blk.transactions| && OkTo(rs, blk, |rs|)
  }

  lemma {:induction false} OkBefore(rs: seq<RpcReceipt>, blk: BlockRef, i: nat, n: nat)
    requires i <= n <= |rs| == |blk.transactions| && OkTo(rs, blk, n)
    ensures OkTo(rs, blk, i)
  {
    if i < n { OkBefore(rs, blk, i, n - 1); }
  }

  lemma {:induction false} OkAt(rs: seq<RpcReceipt>, blk: BlockRef, i: nat)
    requires AllOk(rs, blk) && i < |rs|
    ensures ReceiptOk(rs, blk, i)
  {
    OkBefore(rs, blk, i + 1, |rs|);
  }

  /** The receipts are those of the block. */
  ghost predicate Accepted(K: Hasher, rs: seq<RpcReceipt>, blk: BlockRef) {
    && AllOk(rs, blk)
    && GasBefore(rs, |rs|) == blk.gasUsed
    && StreamTo(rs, |rs|).Some? && K(StreamTo(rs, |rs|).value) == blk.receiptsRoot
  }

  /** A log parses exactly if it has a 20-byte address, at most four topics of 32 bytes, and data; its
      content is what it says. */
  lemma {:induction false} CleanLogExactly(l: RpcLog)
    ensures CleanLog(l).Some? <==>
              && l.address.Some? && |l.address.value| == 20 && l.data.Some?
              && l.topics.Some? && |l.topics.value| <= 4
              && forall k :: 0 <= k < |l.topics.value| ==> l.topics.value[k].Some? && |l.topics.value[k].value| == 32
    ensures CleanLog(l).Some? ==> SaysLog(l, CleanLog(l).value)
  {
    if l.topics.Some? { CleanTopicsExactly(l.topics.value); }
  }

  /** The RPC log says these things. */
  ghost predicate SaysLog(l: RpcLog, log: Log) {
    && l.address == Some(log.address) && l.data == Some(log.data)
    && l.topics.Some? && |l.topics.value| == |log.topics|
    && forall k :: 0 <= k < |log.topics| ==> l.topics.value[k] == Some(log.topics[k])
  }

  lemma {:induction false} CleanTopicsExactly(ts: seq<Option<seq<byte>>>)
    ensures CleanTopics(ts).Some? <==> forall k :: 0 <= k < |ts| ==> ts[k].Some? && |ts[k].value| == 32
    ensures CleanTopics(ts).Some? ==>
              |CleanTopics(ts).value| == |ts| && forall k :: 0 <= k < |ts| ==> ts[k] == Some(CleanTopics(ts).value[k])
  {
    if ts != [] {
      CleanTopicsExactly(ts[1..]);
      assert forall k :: 1 <= k < |ts| ==> ts[k] == ts[1..][k - 1];
    }
  }

  /** The content of a receipt that is in order is what the RPC says: status, cumulative gas, and every
      log with its address, topics and data; without a list of logs there are none. */
  ghost predicate SaysReceipt(r: RpcReceipt, c: Receipt) {
    && r.status == Some(c.status) && r.cumulativeGasUsed == Some(c.cumulative)
    && match r.logs
       case LogList(items) => |items| == |c.logs| && forall j :: 0 <= j < |items| ==> SaysLog(items[j], c.logs[j])
       case NullLogs => c.logs == []
       case NotAList => false
  }

  lemma {:induction false} CleanLogsAt(logs: seq<RpcLog>, j: nat)
    requires (forall k :: 0 <= k < |logs| ==> CleanLog(logs[k]).Some?) && j < |logs|
    ensures |CleanLogs(logs)| == |logs| && CleanLog(logs[j]) == Some(CleanLogs(logs)[j])
  {
    var init := logs[..|logs| - 1];
    if |init| > 0 { CleanLogsAt(init, if j < |init| then j else 0); }
  }

  lemma {:induction false} CleanSays(rs: seq<RpcReceipt>, blk: BlockRef, i: nat)
    requires i < |rs| && i < |blk.transactions| && ReceiptOk(rs, blk, i)
    ensures SaysReceipt(rs[i], Clean(rs[i]))
  {
    var logs := LogsOf(rs[i]).value;
    if logs != [] { CleanLogsAt(logs, 0); }
    forall j | 0 <= j < |logs| ensures |CleanLogs(logs)| == |logs| && SaysLog(logs[j], CleanLogs(logs)[j]) {
      CleanLogsAt(logs, j);
      CleanLogExactly(logs[j]);
    }
  }

  /** The byte string reads as what the receipts say. */
  ghost predicate ReadsAs(raw: seq<byte>, rs: seq<RpcReceipt>) {
    exists cs: seq<Receipt> :: ReadsReceipts(raw, 0, cs) && SaysAll(rs, cs)
  }

  ghost predicate SaysAll(rs: seq<RpcReceipt>, cs: seq<Receipt>) {
    |cs| == |rs| && forall i :: 0 <= i < |rs| ==> SaysReceipt(rs[i], cs[i])
  }

  /** What an RPC receipt says is determined. */
  lemma {:induction false} SaysUnique(r: RpcReceipt, c: Receipt, d: Receipt)
    requires SaysReceipt(r, c) && SaysReceipt(r, d)
    ensures c == d
  {
    assert c.logs == d.logs by {
      forall j | 0 <= j < |c.logs| ensures |c.logs| == |d.logs| && c.logs[j] == d.logs[j] {
        assert SaysLog(r.logs.items[j], c.logs[j]) && SaysLog(r.logs.items[j], d.logs[j]);
        assert c.logs[j].topics == d.logs[j].topics;
      }
    }
  }

  lemma {:induction false} CleanAllSays(rs: seq<RpcReceipt>, blk: BlockRef)
    requires AllOk(rs, blk)
    ensures SaysAll(rs, CleanAll(rs))
  {
    if rs != [] { CleanAllAt(rs, 0); }
    forall i | 0 <= i < |rs| ensures |CleanAll(rs)| == |rs| && SaysReceipt(rs[i], CleanAll(rs)[i]) {
      CleanAllAt(rs, i);
      OkAt(rs, blk, i);
      CleanSays(rs, blk, i);
    }
  }

  lemma {:induction false} SaysAllUnique(rs: seq<RpcReceipt>, cs: seq<Receipt>, ds: seq<Receipt>)
    requires SaysAll(rs, cs) && SaysAll(rs, ds)
    ensures cs == ds
  {
    forall i | 0 <= i < |rs| ensures cs[i] == ds[i] { SaysUnique(rs[i], cs[i], ds[i]); }
  }

  /** The stream of receipts that are in order is the byte string that reads as what they say. */
  lemma {:induction false} StreamReadsAs(rs: seq<RpcReceipt>, blk: BlockRef, raw: seq<byte>)
    requires AllOk(rs, blk)
    ensures StreamTo(rs, |rs|) == Some(raw) <==> ReadsAs(raw, rs)
  {
    var cs := CleanAll(rs);
    CleanAllSays(rs, blk);
    assert StreamTo(rs, |rs|) == Stream(cs) by {
      StreamToIsStream(rs, |rs|);
      assert rs[..|rs|] == rs;
    }
    StreamExactly(cs, raw);
    if ReadsAs(raw, rs) {
      var ds: seq<Receipt> :| ReadsReceipts(raw, 0, ds) && SaysAll(rs, ds);
      SaysAllUnique(rs, cs, ds);
    }
  }

  /** Acceptance without the encoder: the receipts are in order, their gas is the block's, and the
      block's root is the hash of the byte string that reads as what they say. */
  lemma {:induction false} AcceptedExactly(K: Hasher, rs: seq<RpcReceipt>, blk: BlockRef)
    ensures Accepted(K, rs, blk) <==>
              && AllOk(rs, blk) && GasBefore(rs, |rs|) == blk.gasUsed
              && exists raw :: ReadsAs(raw, rs) && K(raw) == blk.receiptsRoot
  {
    if AllOk(rs, blk) {
      if StreamTo(rs, |rs|).Some? {
        var raw := StreamTo(rs, |rs|).value;
        assert ReadsAs(raw, rs) by { StreamReadsAs(rs, blk, raw); }
      }
      if raw: seq<byte> :| ReadsAs(raw, rs) && K(raw) == blk.receiptsRoot {
        assert StreamTo(rs, |rs|) == Some(raw) by { StreamReadsAs(rs, blk, raw); }
      }
    }
  }

  /** Receipts with the given status before position `i`. */
  ghost function CountStatus(rs: seq<RpcReceipt>, i: nat, status: nat): nat
    requires i <= |rs|
  {
    if i == 0 then 0 else CountStatus(rs, i - 1, status) + if rs[i - 1].status == Some(status) then 1 else 0
  }

  datatype Summary = Summary(successful: nat, failed: nat, root: Hash)

  /** The inner loop of `receipt_summary`. */
  method ReadLogs(logs: seq<RpcLog>, blk: BlockRef, index: nat, first: nat) returns (r: Option<seq<Log>>)
    requires index < |blk.transactions|
    ensures r.Some? <==> LogsOk(logs, blk, index, first)
    ensures r.Some? ==> r.value == CleanLogs(logs) && |r.value| == |logs|
  {
    var clean, logIndex := [], first;
    for j := 0 to |logs|
      invariant logIndex == first + j
      invariant LogsOk(logs[..j], blk, index, first)
      invariant clean == CleanLogs(logs[..j]) && |clean| == j
    {
      assert logs[..j + 1][..j] == logs[..j];
      var l := logs[j];
      if !l.removedFalse || l.blockHash != Some(blk.hash) || l.blockNumber != Some(blk.number)
         || l.transactionHash != Some(blk.transactions[index]) || l.transactionIndex != Some(index)
         || l.logIndex != Some(logIndex) {
        return None;
      }
      var log := CleanLog(l);
      if log.None? {
        return None;
      }
      clean := clean + [log.value];
      logIndex := logIndex + 1;
    }
    assert logs[..|logs|] == logs;
    return Some(clean);
  }

  /** One turn of the outer loop of `receipt_summary`, given the running gas and log counters. */
  method ReadReceipt(rs: seq<RpcReceipt>, blk: BlockRef, i: nat, previousGas: nat, logIndex: nat)
    returns (c: Option<Receipt>)
    requires i < |rs| == |blk.transactions|
    requires previousGas == GasBefore(rs, i) && logIndex == LogsBefore(rs, i)
    ensures c.Some? <==> ReceiptOk(rs, blk, i)
    ensures c.Some? ==> c.value == Clean(rs[i]) && |c.value.logs| == LogCount(rs[i])
  {
    var r := rs[i];
    if r.blockHash != Some(blk.hash) || r.blockNumber != Some(blk.number)
       || r.transactionIndex != Some(i) || r.transactionHash != Some(blk.transactions[i]) {
      return None;
    }
    if r.status.None? || r.cumulativeGasUsed.None? || r.status.value > 1 {
      return None;
    }
    var cumulative := r.cumulativeGasUsed.value;
    if !(previousGas <= cumulative <= 0xffff_ffff_ffff_ffff) || r.gasUsed != Some(cumulative - previousGas) {
      return None;
    }
    var rpcLogs: seq<RpcLog> := [];
    match r.logs {
      case LogList(items) => rpcLogs := items;
      case NotAList => return None;
      case NullLogs =>
        if r.logsBloom != Some(seq(256, _ => 0)) {
          return None;
        }
    }
    var logs := ReadLogs(rpcLogs, blk, i, logIndex);
    if logs.None? {
      return None;
    }
    return Some(Receipt(r.status.value, cumulative, logs.value));
  }

  /** What the pass over the receipts yields. */
  datatype Pass = Pass(successful: nat, failed: nat, gas: nat, stream: seq<byte>)

  ghost predicate PassOf(rs: seq<RpcReceipt>, i: nat, p: Pass)
    requires i <= |rs|
  {
    && p.gas == GasBefore(rs, i)
    && StreamTo(rs, i) == Some(p.stream)
    && p.successful == CountStatus(rs, i, 1) && p.failed == CountStatus(rs, i, 0)
  }

  /** Take one checked receipt into the counts and the stream. */
  method Take(rs: seq<RpcReceipt>, i: nat, p: Pass, c: Receipt) returns (p': Option<Pass>)
    requires i < |rs| && PassOf(rs, i, p) && c == Clean(rs[i])
    requires rs[i].status == Some(0) || rs[i].status == Some(1)
    ensures p'.Some? <==> StreamTo(rs, i + 1).Some?
    ensures p'.Some? ==> PassOf(rs, i + 1, p'.value)
  {
    var code := Encode(ReceiptValue(c));
    if code.None? {
      return None;
    }
    return Some(Pass(p.successful + (if c.status == 1 then 1 else 0),
                     p.failed + (if c.status == 1 then 0 else 1),
                     c.cumulative, p.stream + code.value));
  }

  /** One whole turn: check the receipt, then take it. */
  method Turn(rs: seq<RpcReceipt>, blk: BlockRef, i: nat, p: Pass, logIndex: nat)
    returns (p': Option<Pass>, logIndex': nat)
    requires i < |rs| == |blk.transactions|
    requires PassOf(rs, i, p) && logIndex == LogsBefore(rs, i)
    ensures p'.Some? <==> ReceiptOk(rs, blk, i) && StreamTo(rs, i + 1).Some?
    ensures p'.Some? ==> PassOf(rs, i + 1, p'.value) && logIndex' == LogsBefore(rs, i + 1)
  {
    var receipt := ReadReceipt(rs, blk, i, p.gas, logIndex);
    if receipt.None? {
      return None, logIndex;
    }
    logIndex' := logIndex + |receipt.value.logs|;
    p' := Take(rs, i, p, receipt.value);
  }

  /** The generator of `receipt_summary`, run to its end. */
  method Gather(rs: seq<RpcReceipt>, blk: BlockRef) returns (r: Option<Pass>)
    requires |rs| == |blk.transactions|
    ensures r.Some? <==> AllOk(rs, blk) && StreamTo(rs, |rs|).Some?
    ensures r.Some? ==> PassOf(rs, |rs|, r.value)
  {
    r := Some(Pass(0, 0, 0, []));
    var logIndex, i := 0, 0;
    while r.Some? && i < |rs|
      invariant i <= |rs| && (r.Some? <==> OkTo(rs, blk, i) && StreamTo(rs, i).Some?)
      invariant r.Some? ==> PassOf(rs, i, r.value) && logIndex == LogsBefore(rs, i)
      decreases |rs| - i
    {
      r, logIndex := Turn(rs, blk, i, r.value, logIndex);
      i := i + 1;
    }
    if r.None? {
      if OkTo(rs, blk, |rs|) { OkBefore(rs, blk, i, |rs|); }
      if StreamTo(rs, i).None? { StreamStaysBroken(rs, i, |rs|); }
    }
  }

  /** `receipt_summary`: accepts exactly the receipts of the block, and counts them. */
  method Summarize(K: Hasher, rs: seq<RpcReceipt>, blk: BlockRef) returns (s: Option<Summary>)
    ensures s.Some? <==> Accepted(K, rs, blk)
    ensures s.Some? ==> s.value == Summary(CountStatus(rs, |rs|, 1), CountStatus(rs, |rs|, 0), blk.receiptsRoot)
  {
    if |rs| != |blk.transactions| {
      return None;
    }
    var p := Gather(rs, blk);
    if p.None? || p.value.gas != blk.gasUsed || K(p.value.stream) != blk.receiptsRoot {
      return None;
    }
    return Some(Summary(p.value.successful, p.value.failed, blk.receiptsRoot));
  }

  // -------------------------------------------------------------- consequences

  ghost function SumGas(rs: seq<RpcReceipt>, i: nat): nat
    requires i <= |rs|
  {
    if i == 0 then 0
    else SumGas(rs, i - 1) + if rs[i - 1].gasUsed.Some? then rs[i - 1].gasUsed.value else 0
  }

  lemma {:induction false} GasTelescopes(rs: seq<RpcReceipt>, blk: BlockRef, i: nat)
    requires i <= |rs| && AllOk(rs, blk)
    ensures SumGas(rs, i) == GasBefore(rs, i)
  {
    if i > 0 {
      GasTelescopes(rs, blk, i - 1);
      OkAt(rs, blk, i - 1);
    }
  }

  lemma {:induction false} StatusesPartition(rs: seq<RpcReceipt>, blk: BlockRef, i: nat)
    requires i <= |rs| && AllOk(rs, blk)
    ensures CountStatus(rs, i, 0) + CountStatus(rs, i, 1) == i
  {
    if i > 0 {
      StatusesPartition(rs, blk, i - 1);
      OkAt(rs, blk, i - 1);
    }
  }

  /** Conservation: the gas of the receipts is the gas of the block, and every transaction is
      counted once, as a success or as a failure. */
  lemma {:induction false} AcceptedConserves(K: Hasher, rs: seq<RpcReceipt>, blk: BlockRef)
    requires Accepted(K, rs, blk)
    ensures SumGas(rs, |rs|) == blk.gasUsed
    ensures CountStatus(rs, |rs|, 0) + CountStatus(rs, |rs|, 1) == |blk.transactions|
  {
    GasTelescopes(rs, blk, |rs|);
    StatusesPartition(rs, blk, |rs|);
  }

  /** Log indices run through the block without gap or repetition, across receipts. */
  lemma {:induction false} LogIndicesContiguous(rs: seq<RpcReceipt>, blk: BlockRef, i: nat, j: nat)
    requires AllOk(rs, blk) && i < |rs| && j < LogCount(rs[i])
    ensures LogsOf(rs[i]).value[j].logIndex == Some(LogsBefore(rs, i) + j)
    ensures LogsBefore(rs, i) + j < LogsBefore(rs, |rs|)
  {
    OkAt(rs, blk, i);
    assert LogPlaced(LogsOf(rs[i]).value[j], blk, i, LogsBefore(rs, i) + j);
    LogsBeforeGrows(rs, i + 1, |rs|);
  }

  lemma {:induction false} LogsBeforeGrows(rs: seq<RpcReceipt>, i: nat, n: nat)
    requires i <= n <= |rs|
    ensures LogsBefore(rs, i) <= LogsBefore(rs, n)
  {
    if i < n { LogsBeforeGrows(rs, i, n - 1); }
  }

  /** The receipt root binds the execution: two lists accepted under one root agree on every
      status, cumulative gas and log, or the hash collides on their two streams. */
  lemma {:induction false} DifferentReceipts(
    K: Hasher, a: seq<RpcReceipt>, blkA: BlockRef, b: seq<RpcReceipt>, blkB: BlockRef)
    requires Accepted(K, a, blkA) && Accepted(K, b, blkB) && blkA.receiptsRoot == blkB.receiptsRoot
    requires CleanAll(a) != CleanAll(b)
    ensures StreamTo(a, |a|).Some? && StreamTo(b, |b|).Some?
    ensures Genuine(K, Collision(StreamTo(a, |a|).value, StreamTo(b, |b|).value))
  {
    StreamToIsStream(a, |a|);
    StreamToIsStream(b, |b|);
    assert a[..|a|] == a && b[..|b|] == b;
    if StreamTo(a, |a|) == StreamTo(b, |b|) { StreamDetermines(CleanAll(a), CleanAll(b)); }
  }

  lemma {:induction false} CleanAllAt(rs: seq<RpcReceipt>, i: nat)
    requires i < |rs|
    ensures |CleanAll(rs)| == |rs| && CleanAll(rs)[i] == Clean(rs[i])
  {
    var init := rs[..|rs| - 1];
    if |init| > 0 {
      CleanAllAt(init, if i < |init| then i else 0);
    }
  }

  lemma {:induction false} SameLength(a: seq<RpcReceipt>, b: seq<RpcReceipt>)
    requires CleanAll(a) == CleanAll(b)
    ensures |a| == |b|
  {
    if a != [] { CleanAllAt(a, 0); }
    if b != [] { CleanAllAt(b, 0); }
  }

  lemma {:induction false} SameStatusAt(a: seq<RpcReceipt>, blkA: BlockRef, b: seq<RpcReceipt>, blkB: BlockRef, i: nat)
    requires AllOk(a, blkA) && AllOk(b, blkB) && CleanAll(a) == CleanAll(b) && i < |a| == |b|
    ensures a[i].status == b[i].status
  {
    assert Clean(a[i]) == Clean(b[i]) by {
      CleanAllAt(a, i);
      CleanAllAt(b, i);
    }
    assert a[i].status.Some? by { OkAt(a, blkA, i); }
    assert b[i].status.Some? by { OkAt(b, blkB, i); }
  }

  /** Receipts that agree in content count alike. */
  lemma {:induction false} SameStatuses(
    a: seq<RpcReceipt>, blkA: BlockRef, b: seq<RpcReceipt>, blkB: BlockRef, n: nat, status: nat)
    requires AllOk(a, blkA) && AllOk(b, blkB) && CleanAll(a) == CleanAll(b) && n <= |a| == |b|
    ensures CountStatus(a, n, status) == CountStatus(b, n, status)
  {
    if n > 0 {
      assert CountStatus(a, n - 1, status) == CountStatus(b, n - 1, status) by {
        SameStatuses(a, blkA, b, blkB, n - 1, status);
      }
      assert a[n - 1].status == b[n - 1].status by { SameStatusAt(a, blkA, b, blkB, n - 1); }
    }
  }
}
