/** An honest fleet: every validator serves one chain of two blocks, the second with a transfer.  It
    shows that the audit's promise to accept honest fleets is not empty. */
module HonestFleet {
  import opened Hashing
  import opened Rlp
  import opened NativeHeader
  import opened Receipts
  import opened Audit

  function Zeros(n: nat): (z: seq<byte>)
    ensures |z| == n
  {
    seq(n, _ => 0)
  }

  /** Some state root. */
  function State(): Hash {
    seq(32, _ => 1)
  }

  /** Some transactions root. */
  function Transactions(): Hash {
    seq(32, _ => 2)
  }

  /** The header fields of a block. */
  function FieldsFor(parent: Hash, receiptsRoot: Hash, number: seq<byte>, gas: seq<byte>): Fields {
    [parent, Zeros(32), Zeros(20), State(), Transactions(), receiptsRoot, Zeros(256), [], number, [], gas, [], [],
     Zeros(32), Zeros(8)]
  }

  /** An integer field: short, without leading zeros. */
  predicate Short(code: seq<byte>) {
    |code| <= 8 && (code != [] ==> code[0] != 0)
  }

  /** Short fields always encode. */
  lemma {:induction false} ShortFieldsJoin(fields: Fields)
    requires forall i :: 0 <= i < |fields| ==> |fields[i]| <= 256
    ensures JoinFields(fields).Some? && |JoinFields(fields).value| <= 265 * |fields|
  {
    if fields != [] {
      ShortFieldsJoin(fields[1..]);
      if |fields[0]| >= 56 { LongHeaderWidth(|fields[0]|); }
    }
  }

  lemma {:induction false} FieldsSpelled(parent: Hash, receiptsRoot: Hash, number: seq<byte>, gas: seq<byte>)
    requires Short(number) && Short(gas)
    ensures EncodeAll([AsValue(FieldsFor(parent, receiptsRoot, number, gas))]).Some?
  {
    var fields := FieldsFor(parent, receiptsRoot, number, gas);
    ShortFieldsJoin(fields);
    JoinIsEncode(fields);
    var v := AsValue(fields);
    assert Encode(v).Some?;
    assert [v][0] == v && [v][1..] == [];
  }

  lemma {:induction false} FieldsFit(parent: Hash, receiptsRoot: Hash, number: seq<byte>, gas: seq<byte>)
    requires Short(number) && Short(gas)
    ensures WidthsOk(FieldsFor(parent, receiptsRoot, number, gas))
  {
    var fields := FieldsFor(parent, receiptsRoot, number, gas);
    assert |fields| == 15;
    WidthsExactly(fields);
  }

  ghost function HeaderFor(parent: Hash, receiptsRoot: Hash, number: seq<byte>, gas: seq<byte>): seq<byte>
    requires Short(number) && Short(gas)
  {
    FieldsSpelled(parent, receiptsRoot, number, gas);
    EncodeAll([AsValue(FieldsFor(parent, receiptsRoot, number, gas))]).value
  }

  /** An empty block. */
  ghost function FirstHeader(K: Hasher): seq<byte> {
    HeaderFor(EMPTY_HASH, K([]), [], [])
  }

  /** The stream of one plain transfer: status 1, cumulative gas 21000, no logs. */
  const TRANSFER: seq<byte> := [0xc5, 0x01, 0x82, 0x52, 0x08, 0xc0]

  /** A block with one plain transfer, which takes 21000 gas. */
  ghost function SecondHeader(K: Hasher): seq<byte> {
    HeaderFor(K(FirstHeader(K)), K(TRANSFER), [1], [0x52, 0x08])
  }

  ghost function First(K: Hasher): Entry {
    var header := FirstHeader(K);
    Entry(RawBlock(K(header), EMPTY_HASH, State(), K([]), Transactions(), 0, 0, []), header, [])
  }

  ghost function Second(K: Hasher): Entry {
    var header := SecondHeader(K);
    Entry(RawBlock(K(header), K(FirstHeader(K)), State(), K(TRANSFER), Transactions(), 1, 21000, [EMPTY_HASH]), header,
          [TransferReceipt(K(header))])
  }

  function TransferReceipt(blockHash: Hash): RpcReceipt {
    RpcReceipt(Some(blockHash), Some(1), Some(0), Some(EMPTY_HASH), Some(1), Some(21000), Some(21000), LogList([]),
               None)
  }

  lemma {:induction false} HeaderIsGood(
    K: Hasher, parent: Hash, receiptsRoot: Hash, number: seq<byte>, gas: seq<byte>, b: Block)
    requires Short(number) && Short(gas)
    requires
      var header := HeaderFor(parent, receiptsRoot, number, gas);
      b == Block(K(header), parent, State(), receiptsRoot, Transactions(), FromBigEndian(number), b.transactions,
                 FromBigEndian(gas))
    ensures HeaderOf(K, HeaderFor(parent, receiptsRoot, number, gas), b)
  {
    FieldsSpelled(parent, receiptsRoot, number, gas);
    FieldsFit(parent, receiptsRoot, number, gas);
    assert HeaderWith(K, HeaderFor(parent, receiptsRoot, number, gas), b, FieldsFor(parent, receiptsRoot, number, gas));
  }

  lemma {:induction false} FirstIsGood(K: Hasher)
    ensures
      var e := First(K);
      HeaderOf(K, e.header, BlockOf(e.raw)) && Receipts.Accepted(K, e.receipts, RefOf(e.raw))
  {
    HeaderIsGood(K, EMPTY_HASH, K([]), [], [], BlockOf(First(K).raw));
  }

  lemma {:induction false} SecondIsGood(K: Hasher)
    ensures
      var e := Second(K);
      HeaderOf(K, e.header, BlockOf(e.raw)) && Receipts.Accepted(K, e.receipts, RefOf(e.raw))
  {
    assert FromBigEndian([1]) == 1 && FromBigEndian([0x52, 0x08]) == 21000 by {
      assert FromDigits([1], 1) == 1 && FromDigits([0x52, 0x08], 1) == 0x52;
    }
    HeaderIsGood(K, K(FirstHeader(K)), K(TRANSFER), [1], [0x52, 0x08], BlockOf(Second(K).raw));
    TransferAccepted(K, RefOf(Second(K).raw));
  }

  lemma {:induction false} TransferAccepted(K: Hasher, blk: BlockRef)
    requires blk == BlockRef(blk.hash, 1, 21000, K(TRANSFER), [EMPTY_HASH])
    ensures Receipts.Accepted(K, [TransferReceipt(blk.hash)], blk)
  {
    var rs := [TransferReceipt(blk.hash)];
    assert ReceiptOk(rs, blk, 0);
    assert OkTo(rs, blk, 1);
    assert StreamTo(rs, 1) == Some(TRANSFER) by {
      StreamToIsStream(rs, 1);
      assert rs[..1] == rs && rs[..0] == [];
      assert CleanAll(rs) == [Receipt(1, 21000, [])];
      TransferStream();
    }
  }

  /** Every validator answers about these two blocks, whenever it is asked. */
  ghost function Replies(a: Entry, b: Entry): Rpc {
    Rpc((c, v, n) => if n == a.raw.number then Some(a.raw) else if n == b.raw.number then Some(b.raw) else None,
        (c, v, h) => if h == a.raw.hash then Some(a.raw) else if h == b.raw.hash then Some(b.raw) else None,
        (c, v, h) => if h == a.raw.hash then Some(a.header) else if h == b.raw.hash then Some(b.header) else None,
        (c, v, h) => if h == a.raw.hash then Some(a.receipts) else if h == b.raw.hash then Some(b.receipts) else None)
  }

  /** The replies about `e` are its own, and it is sound. */
  lemma {:induction false} AnswersServe(K: Hasher, rpc: Rpc, e: Entry)
    requires NoRepeats(e.raw.transactions)
    requires HeaderOf(K, e.header, BlockOf(e.raw)) && Receipts.Accepted(K, e.receipts, RefOf(e.raw))
    requires forall c: nat, v: nat :: rpc.byNumber(c, v, e.raw.number) == Some(e.raw)
    requires forall c: nat, v: nat :: rpc.byHash(c, v, e.raw.hash) == Some(e.raw)
    requires forall c: nat, v: nat :: rpc.header(c, v, e.raw.hash) == Some(e.header)
    requires forall c: nat, v: nat :: rpc.receipts(c, v, e.raw.hash) == Some(e.receipts)
    ensures Served(K, rpc, e)
  {
  }

  /** Two entries that are sound and follow each other. */
  ghost predicate Pair(K: Hasher, a: Entry, b: Entry) {
    && a.raw.number == 0 && b.raw.number == 1 && b.raw.parentHash == a.raw.hash != b.raw.hash
    && NoRepeats(a.raw.transactions) && NoRepeats(b.raw.transactions)
    && HeaderOf(K, a.header, BlockOf(a.raw)) && Receipts.Accepted(K, a.receipts, RefOf(a.raw))
    && HeaderOf(K, b.header, BlockOf(b.raw)) && Receipts.Accepted(K, b.receipts, RefOf(b.raw))
  }

  lemma {:induction false} PairServed(K: Hasher, a: Entry, b: Entry)
    requires Pair(K, a, b)
    ensures Faithful(K, Replies(a, b), World(0, [a, b]))
  {
    var rpc, w := Replies(a, b), World(0, [a, b]);
    AnswersServe(K, rpc, a);
    AnswersServe(K, rpc, b);
    assert FaithfulAt(K, rpc, w, 0) && FaithfulAt(K, rpc, w, 1);
    assert FaithfulTo(K, rpc, w, 1);
  }

  lemma {:induction false} PairCaptured(K: Hasher, a: Entry, b: Entry, c: Capture)
    requires Pair(K, a, b) && c == Capture(BlockOf(a.raw), a.header, 0, BlockOf(b.raw), b.header, 1)
    ensures HonestAt(K, World(0, [a, b]), c) && c.start.number == 0 && c.end.number == 1
  {
  }

  /** If the hash function tells the two headers apart, here is a chain of two blocks that all
      validators serve, captured at its two ends: the audit of any number of validators accepts it. */
  lemma {:induction false} HonestExists(K: Hasher, nodes: nat) returns (rpc: Rpc, w: World, cs: seq<Capture>)
    requires nodes > 0 && K(FirstHeader(K)) != K(SecondHeader(K))
    ensures Faithful(K, rpc, w) && |w.entries| == 2 && w.entries[1].raw.transactions != []
    ensures |cs| == nodes && AllHonest(K, w, cs) && FirstHeight(cs) < LastHeight(cs)
  {
    FirstIsGood(K);
    SecondIsGood(K);
    rpc, w, cs := PairFleet(K, First(K), Second(K), nodes);
  }

  lemma {:induction false} PairFleet(K: Hasher, a: Entry, b: Entry, nodes: nat)
    returns (rpc: Rpc, w: World, cs: seq<Capture>)
    requires nodes > 0 && Pair(K, a, b)
    ensures w == World(0, [a, b]) && Faithful(K, rpc, w)
    ensures |cs| == nodes && AllHonest(K, w, cs) && FirstHeight(cs) < LastHeight(cs)
  {
    rpc, w := Replies(a, b), World(0, [a, b]);
    PairServed(K, a, b);
    var c := Capture(BlockOf(a.raw), a.header, 0, BlockOf(b.raw), b.header, 1);
    PairCaptured(K, a, b, c);
    cs := seq(nodes, _ => c);
    AllAlike(K, w, c, cs, nodes);
  }

  lemma {:induction false} AllAlike(K: Hasher, w: World, c: Capture, cs: seq<Capture>, n: nat)
    requires n <= |cs| && HonestAt(K, w, c) && forall i :: 0 <= i < |cs| ==> cs[i] == c
    ensures HonestTo(K, w, cs, n)
  {
    if n > 0 { AllAlike(K, w, c, cs, n - 1); }
  }
}
