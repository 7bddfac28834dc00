/** The interval and ancestry part of the throughput audit, against validators whose replies
    may be anything at all.

    A reply is a function of the number of calls made so far, so a validator may answer the
    same question differently each time. */
module Audit {
  import opened Hashing
  import opened Rlp
  import opened NativeHeader
  import opened Receipts

  // ------------------------------------------------------------------- blocks

  /** A block as `block_summary` keeps it. */
  datatype Block = Block(
    hash: Hash,
    parentHash: Hash,
    stateRoot: Hash,
    receiptsRoot: Hash,
    transactionsRoot: Hash,
    number: nat,
    transactions: nat,
    gasUsed: nat)

  /** A block as returned by RPC, when all its fields parse. */
  datatype RawBlock = RawBlock(
    hash: Hash,
    parentHash: Hash,
    stateRoot: Hash,
    receiptsRoot: Hash,
    transactionsRoot: Hash,
    number: nat,
    gasUsed: nat,
    transactions: seq<Hash>)

  function BlockOf(r: RawBlock): Block {
    Block(r.hash, r.parentHash, r.stateRoot, r.receiptsRoot, r.transactionsRoot, r.number, |r.transactions|, r.gasUsed)
  }

  /** `block_summary`. */
  function BlockSummary(reply: Option<RawBlock>): Option<Block> {
    if reply.None? || !NoRepeats(reply.value.transactions) then None else Some(BlockOf(reply.value))
  }

  function RefOf(r: RawBlock): BlockRef {
    BlockRef(r.hash, r.number, r.gasUsed, r.receiptsRoot, r.transactions)
  }

  /** The header fields say what the summary says. */
  predicate FieldsMatch(fields: Fields, b: Block)
    requires WidthsOk(fields)
  {
    && fields[PARENT_HASH] == b.parentHash
    && fields[STATE_ROOT] == b.stateRoot
    && fields[TRANSACTIONS_ROOT] == b.transactionsRoot
    && fields[RECEIPTS_ROOT] == b.receiptsRoot
    && FromBigEndian(fields[NUMBER]) == b.number
    && FromBigEndian(fields[GAS_USED]) == b.gasUsed
  }

  /** `raw` is the one header that hashes to the block's hash, and it says what the summary
      says. */
  ghost predicate HeaderOf(K: Hasher, raw: seq<byte>, b: Block) {
    exists fields :: HeaderWith(K, raw, b, fields)
  }

  ghost predicate HeaderWith(K: Hasher, raw: seq<byte>, b: Block, fields: Fields) {
    K(raw) == b.hash && WidthsOk(fields) && Spells(raw, fields) && FieldsMatch(fields, b)
  }

  /** A block with the exact header that was verified for it, as the report keeps it. */
  datatype Step = Step(block: Block, header: seq<byte>)

  ghost predicate Headed(K: Hasher, s: Step) {
    HeaderOf(K, s.header, s.block)
  }

  /** `verify_native_header`. */
  method VerifyHeader(K: Hasher, raw: Option<seq<byte>>, b: Block) returns (ok: bool)
    ensures ok <==> raw.Some? && HeaderOf(K, raw.value, b)
  {
    if raw.None? {
      return false;
    }
    var fields := HeaderFields(raw.value);
    if fields.None? {
      return false;
    }
    var f := fields.value;
    ok := && K(raw.value) == b.hash
          && f[0] == b.parentHash && f[3] == b.stateRoot && f[4] == b.transactionsRoot && f[5] == b.receiptsRoot
          && FromBigEndian(f[8]) == b.number && FromBigEndian(f[10]) == b.gasUsed;
    assert ok ==> HeaderWith(K, raw.value, b, fields.value);
  }

  /** A hash binds everything the header says: two blocks with one hash agree on it, or their two
      headers collide. */
  lemma {:induction false} HeaderClash(K: Hasher, x: Step, y: Step)
    requires Headed(K, x) && Headed(K, y) && x.block.hash == y.block.hash && !SameFields(x.block, y.block)
    ensures Genuine(K, Collision(x.header, y.header))
  {
    if x.header == y.header { SameHeaderSameFields(K, x.header, x.block, y.block); }
  }

  /** All that a header says about a block. */
  predicate SameFields(a: Block, b: Block) {
    && a.parentHash == b.parentHash && a.stateRoot == b.stateRoot && a.transactionsRoot == b.transactionsRoot
    && a.receiptsRoot == b.receiptsRoot && a.number == b.number && a.gasUsed == b.gasUsed
  }

  lemma {:induction false} SameHeaderSameFields(K: Hasher, raw: seq<byte>, a: Block, b: Block)
    requires HeaderOf(K, raw, a) && HeaderOf(K, raw, b)
    ensures SameFields(a, b)
  {
    var f: Fields :| HeaderWith(K, raw, a, f);
    var g: Fields :| HeaderWith(K, raw, b, g);
    assert f == g by {
      SpelledSplits(raw, f);
      SpelledSplits(raw, g);
    }
  }

  // ------------------------------------------------------------------- chains

  /** `b` is the child of `a`, at the next height. */
  predicate Follows(a: Block, b: Block) {
    b.parentHash == a.hash && b.number == a.number + 1
  }

  /** The block after `i` steps of a path up from `lower`. */
  function After(lower: Block, path: seq<Step>, i: nat): Block
    requires i <= |path|
  {
    if i == 0 then lower else path[i - 1].block
  }

  function EndOf(lower: Block, path: seq<Step>): Block {
    After(lower, path, |path|)
  }

  predicate StepFollows(lower: Block, path: seq<Step>, i: nat)
    requires i < |path|
  {
    Follows(After(lower, path, i), path[i].block)
  }

  /** Consecutive numbers up from `lower`, each block naming the hash of the one before. */
  ghost predicate Linked(lower: Block, path: seq<Step>) {
    forall i: nat :: i < |path| ==> StepFollows(lower, path, i)
  }

  ghost predicate AllHeaded(K: Hasher, path: seq<Step>) {
    forall s :: s in path ==> Headed(K, s)
  }

  lemma {:induction false} LinkedAppend(lower: Block, path: seq<Step>, s: Step)
    requires Linked(lower, path) && Follows(EndOf(lower, path), s.block)
    ensures Linked(lower, path + [s]) && EndOf(lower, path + [s]) == s.block
  {
    forall i: nat | i < |path| + 1 ensures StepFollows(lower, path + [s], i) {
      if i < |path| { assert StepFollows(lower, path, i); }
    }
  }

  lemma {:induction false} LinkedNumbers(lower: Block, path: seq<Step>, i: nat)
    requires Linked(lower, path) && i <= |path|
    ensures After(lower, path, i).number == lower.number + i
  {
    if i > 0 {
      LinkedNumbers(lower, path, i - 1);
      assert StepFollows(lower, path, i - 1);
    }
  }

  // ------------------------------------------------------------------ replies

  /** Replies by call number and validator. */
  datatype Rpc = Rpc(
    byNumber: (nat, nat, nat) -> Option<RawBlock>,
    byHash: (nat, nat, Hash) -> Option<RawBlock>,
    header: (nat, nat, Hash) -> Option<seq<byte>>,
    receipts: (nat, nat, Hash) -> Option<seq<RpcReceipt>>)

  /** A block with everything a validator can be asked about it. */
  datatype Entry = Entry(raw: RawBlock, header: seq<byte>, receipts: seq<RpcReceipt>)

  ghost predicate GoodBlock(e: Entry, reply: Option<RawBlock>) {
    reply == Some(e.raw) && NoRepeats(e.raw.transactions)
  }

  ghost predicate GoodHeader(K: Hasher, e: Entry, reply: Option<seq<byte>>) {
    reply == Some(e.header) && HeaderOf(K, e.header, BlockOf(e.raw))
  }

  ghost predicate GoodReceipts(K: Hasher, e: Entry, reply: Option<seq<RpcReceipt>>) {
    reply == Some(e.receipts) && Accepted(K, e.receipts, RefOf(e.raw))
  }

  /** At every call, every validator answers questions about this block with `e`, and `e` is
      sound. */
  ghost predicate Served(K: Hasher, rpc: Rpc, e: Entry) {
    && (forall c: nat, v: nat :: GoodBlock(e, rpc.byNumber(c, v, e.raw.number)))
    && (forall c: nat, v: nat :: GoodBlock(e, rpc.byHash(c, v, e.raw.hash)))
    && (forall c: nat, v: nat :: GoodHeader(K, e, rpc.header(c, v, e.raw.hash)))
    && (forall c: nat, v: nat :: GoodReceipts(K, e, rpc.receipts(c, v, e.raw.hash)))
  }

  /** One chain from height `lo` up. */
  datatype World = World(lo: nat, entries: seq<Entry>)

  ghost predicate Covers(w: World, n: nat) {
    w.lo <= n < w.lo + |w.entries|
  }

  const NO_BLOCK := RawBlock(EMPTY_HASH, EMPTY_HASH, EMPTY_HASH, EMPTY_HASH, EMPTY_HASH, 0, 0, [])

  ghost function EntryAt(w: World, n: nat): Entry {
    if Covers(w, n) then w.entries[n - w.lo] else Entry(NO_BLOCK, [], [])
  }

  ghost function BlockAt(w: World, n: nat): Block {
    BlockOf(EntryAt(w, n).raw)
  }

  /** Every validator answers from the chain of `w`. */
  ghost predicate Faithful(K: Hasher, rpc: Rpc, w: World) {
    FaithfulTo(K, rpc, w, |w.entries|)
  }

  /** The first `k` entries are at their heights, linked, and what every validator answers. */
  ghost predicate FaithfulTo(K: Hasher, rpc: Rpc, w: World, k: nat)
    requires k <= |w.entries|
  {
    k == 0 || (FaithfulTo(K, rpc, w, k - 1) && FaithfulAt(K, rpc, w, k - 1))
  }

  ghost predicate FaithfulAt(K: Hasher, rpc: Rpc, w: World, i: nat)
    requires i < |w.entries|
  {
    var e := w.entries[i];
    && e.raw.number == w.lo + i && Served(K, rpc, e)
    && (i > 0 ==> e.raw.parentHash == w.entries[i - 1].raw.hash)
  }

  lemma {:induction false} EachFaithful(K: Hasher, rpc: Rpc, w: World, k: nat, i: nat)
    requires i < k <= |w.entries| && FaithfulTo(K, rpc, w, k)
    ensures FaithfulAt(K, rpc, w, i)
  {
    if i < k - 1 { EachFaithful(K, rpc, w, k - 1, i); }
  }

  lemma {:induction false} CoveredIsServed(K: Hasher, rpc: Rpc, w: World, n: nat)
    requires Faithful(K, rpc, w) && Covers(w, n)
    ensures Served(K, rpc, EntryAt(w, n)) && EntryAt(w, n).raw.number == n
  {
    EachFaithful(K, rpc, w, |w.entries|, n - w.lo);
  }

  /** `b` is the block of `w` at its height. */
  ghost predicate OnChain(w: World, b: Block) {
    Covers(w, b.number) && b == BlockAt(w, b.number)
  }

  lemma {:induction false} NextOnChain(K: Hasher, rpc: Rpc, w: World, b: Block)
    requires Faithful(K, rpc, w) && OnChain(w, b) && Covers(w, b.number + 1)
    ensures
      var e := EntryAt(w, b.number + 1);
      && Served(K, rpc, e) && e.raw.number == b.number + 1 && e.raw.parentHash == b.hash
      && OnChain(w, BlockOf(e.raw))
  {
    EachFaithful(K, rpc, w, |w.entries|, b.number + 1 - w.lo);
  }

  /** What was captured from one validator at the two boundaries. */
  datatype Capture = Capture(
    start: Block, startHeader: seq<byte>, startView: nat,
    end: Block, endHeader: seq<byte>, endView: nat)

  /** Both boundaries of `c` are the given blocks, the second not before the first. */
  ghost predicate HonestCapture(K: Hasher, c: Capture, s: Entry, e: Entry) {
    && c.start == BlockOf(s.raw) && c.end == BlockOf(e.raw)
    && HeaderOf(K, c.startHeader, c.start) && HeaderOf(K, c.endHeader, c.end)
    && c.start.number <= c.end.number && c.startView <= c.endView
  }

  /** The counts of `s` come from receipts that the block's own receipt root commits to. */
  ghost predicate Counted(K: Hasher, raw: RawBlock, s: Receipts.Summary) {
    exists rs :: Accepted(K, rs, RefOf(raw)) && s == SummaryOf(Entry(raw, [], rs))
  }

  ghost function SummaryOf(e: Entry): Receipts.Summary {
    var rs := e.receipts;
    Receipts.Summary(CountStatus(rs, |rs|, 1), CountStatus(rs, |rs|, 0), e.raw.receiptsRoot)
  }

  /** What one validator's word on a block comes to. */
  datatype Word = Word(summary: Receipts.Summary, header: seq<byte>)

  ghost function WordOf(e: Entry): Word {
    Word(SummaryOf(e), e.header)
  }

  /** One counted block. */
  datatype Record = Record(block: Block, header: seq<byte>, successful: nat, failed: nat)

  function StepOf(r: Record): Step {
    Step(r.block, r.header)
  }

  /** The record's counts are those of the block's own receipts. */
  ghost predicate Sound(K: Hasher, r: Record) {
    exists raw: RawBlock, s: Receipts.Summary :: SoundBy(K, r, raw, s)
  }

  ghost predicate SoundBy(K: Hasher, r: Record, raw: RawBlock, s: Receipts.Summary) {
    && BlockOf(raw) == r.block && NoRepeats(raw.transactions) && Counted(K, raw, s)
    && r.successful == s.successful && r.failed == s.failed
  }

  /** The block has its header and its counts. */
  ghost predicate Confirmed(K: Hasher, r: Record) {
    Headed(K, StepOf(r)) && Sound(K, r)
  }

  ghost predicate AllConfirmed(K: Hasher, rs: seq<Record>) {
    forall r :: r in rs ==> Confirmed(K, r)
  }

  // What a validator said, at some call.

  ghost predicate SaysAt(rpc: Rpc, node: nat, b: Block) {
    exists c: nat :: Shows(rpc.byNumber(c, node, b.number), b)
  }

  ghost predicate Shows(reply: Option<RawBlock>, b: Block) {
    reply.Some? && BlockOf(reply.value) == b
  }

  ghost predicate Matches(reply: Option<RawBlock>, raw: RawBlock) {
    BlockSummary(reply) == Some(BlockOf(raw)) && reply.value.transactions == raw.transactions
  }

  ghost predicate SaysBlock(rpc: Rpc, node: nat, raw: RawBlock) {
    exists c: nat :: Matches(rpc.byHash(c, node, raw.hash), raw)
  }

  /** At some call the validator gave this header, which is the block's. */
  ghost predicate Kept(K: Hasher, rpc: Rpc, node: nat, s: Step) {
    exists c: nat :: KeptIn(K, rpc, node, s, c)
  }

  ghost predicate KeptIn(K: Hasher, rpc: Rpc, node: nat, s: Step, c: nat) {
    rpc.header(c, node, s.block.hash) == Some(s.header) && Headed(K, s)
  }

  /** Call `c` gave the block for its height, and call `h` its header. */
  ghost predicate GivesIn(K: Hasher, rpc: Rpc, node: nat, s: Step, c: nat, h: nat) {
    && Shows(rpc.byNumber(c, node, s.block.number), s.block)
    && rpc.header(h, node, s.block.hash) == Some(s.header) && Headed(K, s)
  }

  /** The validator gave this block for its height, and this header for the block. */
  ghost predicate Gives(K: Hasher, rpc: Rpc, node: nat, s: Step) {
    exists c: nat, h: nat :: GivesIn(K, rpc, node, s, c, h)
  }

  lemma {:induction false} SaysGives(K: Hasher, rpc: Rpc, node: nat, s: Step)
    requires SaysAt(rpc, node, s.block) && Kept(K, rpc, node, s)
    ensures Gives(K, rpc, node, s)
  {
    var c: nat :| Shows(rpc.byNumber(c, node, s.block.number), s.block);
    var h: nat :| KeptIn(K, rpc, node, s, h);
    assert GivesIn(K, rpc, node, s, c, h);
  }

  lemma {:induction false} GivenIsHeaded(K: Hasher, rpc: Rpc, node: nat, s: Step)
    requires Gives(K, rpc, node, s)
    ensures Headed(K, s)
  {
    var c: nat, h: nat :| GivesIn(K, rpc, node, s, c, h);
  }

  /** All of a path are blocks and headers that the validator gave. */
  ghost predicate AllGiven(K: Hasher, rpc: Rpc, node: nat, path: seq<Step>) {
    path == [] || (AllGiven(K, rpc, node, path[..|path| - 1]) && Gives(K, rpc, node, path[|path| - 1]))
  }

  ghost predicate SaysReceipts(rpc: Rpc, node: nat, hash: Hash, rs: seq<RpcReceipt>) {
    exists c: nat :: rpc.receipts(c, node, hash) == Some(rs)
  }

  /** The validator gave this block, its header, and receipts that the block commits to and that
      sum up to `s`. */
  ghost predicate Vouches(K: Hasher, rpc: Rpc, node: nat, raw: RawBlock, s: Receipts.Summary) {
    exists header, rs :: VouchesWith(K, rpc, node, raw, s, header, rs)
  }

  ghost predicate VouchesWith(
    K: Hasher, rpc: Rpc, node: nat, raw: RawBlock, s: Receipts.Summary, header: seq<byte>, rs: seq<RpcReceipt>) {
    && (node == 0 || SaysBlock(rpc, node, raw)) && Kept(K, rpc, node, Step(BlockOf(raw), header))
    && Sums(K, rpc, node, raw, rs, s)
  }

  ghost predicate HeaderGiven(K: Hasher, rpc: Rpc, node: nat, b: Block) {
    exists header :: Kept(K, rpc, node, Step(b, header))
  }

  ghost predicate ReceiptsGiven(K: Hasher, rpc: Rpc, node: nat, raw: RawBlock, s: Receipts.Summary) {
    exists rs :: Sums(K, rpc, node, raw, rs, s)
  }

  ghost predicate Sums(
    K: Hasher, rpc: Rpc, node: nat, raw: RawBlock, rs: seq<RpcReceipt>, s: Receipts.Summary) {
    SaysReceipts(rpc, node, raw.hash, rs) && Accepted(K, rs, RefOf(raw)) && s == SummaryOf(Entry(raw, [], rs))
  }

  /** `p` holds of all numbers below `n`. */
  ghost predicate AllBelow(n: nat, p: nat -> bool) {
    n == 0 || (AllBelow(n - 1, p) && p(n - 1))
  }

  lemma {:induction false} AllBelowAt(n: nat, p: nat -> bool, i: nat)
    requires AllBelow(n, p) && i < n
    ensures p(i)
  {
    if i < n - 1 { AllBelowAt(n - 1, p, i); }
  }

  /** The validator gave this block, this header and receipts with these sums. */
  ghost predicate Stated(K: Hasher, rpc: Rpc, node: nat, raw: RawBlock, w: Word) {
    exists rs :: StatedWith(K, rpc, node, raw, w, rs)
  }

  ghost predicate StatedWith(K: Hasher, rpc: Rpc, node: nat, raw: RawBlock, w: Word, rs: seq<RpcReceipt>) {
    NoRepeats(raw.transactions) && VouchesWith(K, rpc, node, raw, w.summary, w.header, rs)
  }

  /** Every validator did, with the same sums; the header is the last one's. */
  ghost predicate StatedByAll(K: Hasher, rpc: Rpc, nodes: nat, raw: RawBlock, w: Word) {
    exists last: nat :: StatedUpTo(K, rpc, nodes, raw, w, last)
  }

  ghost predicate StatedUpTo(K: Hasher, rpc: Rpc, nodes: nat, raw: RawBlock, w: Word, last: nat) {
    nodes == last + 1 && Stated(K, rpc, last, raw, w) && AllVouch(K, rpc, nodes, raw, w.summary)
  }

  lemma {:induction false} StatedVouches(K: Hasher, rpc: Rpc, node: nat, raw: RawBlock, w: Word)
    requires Stated(K, rpc, node, raw, w)
    ensures Vouches(K, rpc, node, raw, w.summary) && NoRepeats(raw.transactions)
    ensures Kept(K, rpc, node, Step(BlockOf(raw), w.header)) && Counted(K, raw, w.summary)
  {
    var rs :| StatedWith(K, rpc, node, raw, w, rs);
    assert VouchesWith(K, rpc, node, raw, w.summary, w.header, rs);
    assert Accepted(K, rs, RefOf(raw)) && w.summary == SummaryOf(Entry(raw, [], rs));
  }

  lemma {:induction false} StatedByOne(K: Hasher, rpc: Rpc, raw: RawBlock, w: Word)
    requires Stated(K, rpc, 0, raw, w)
    ensures StatedByAll(K, rpc, 1, raw, w)
  {
    StatedVouches(K, rpc, 0, raw, w);
    assert StatedUpTo(K, rpc, 1, raw, w, 0);
  }

  lemma {:induction false} StatedByNext(K: Hasher, rpc: Rpc, nodes: nat, raw: RawBlock, w: Word, w': Word)
    requires StatedByAll(K, rpc, nodes, raw, w) && Stated(K, rpc, nodes, raw, w') && w.summary == w'.summary
    ensures StatedByAll(K, rpc, nodes + 1, raw, w')
  {
    assert AllVouch(K, rpc, nodes, raw, w'.summary) by {
      var last: nat :| StatedUpTo(K, rpc, nodes, raw, w, last);
    }
    assert Vouches(K, rpc, nodes, raw, w'.summary) by { StatedVouches(K, rpc, nodes, raw, w'); }
    assert StatedUpTo(K, rpc, nodes + 1, raw, w', nodes);
  }

  lemma {:induction false} VouchedFor(K: Hasher, rpc: Rpc, node: nat, raw: RawBlock, w: Word)
    requires NoRepeats(raw.transactions) && (node == 0 || SaysBlock(rpc, node, raw))
    requires Kept(K, rpc, node, Step(BlockOf(raw), w.header)) && ReceiptsGiven(K, rpc, node, raw, w.summary)
    ensures Stated(K, rpc, node, raw, w)
  {
    var rs :| Sums(K, rpc, node, raw, rs, w.summary);
    assert StatedWith(K, rpc, node, raw, w, rs);
  }

  /** Every validator vouches for the record, the first one has it at its height, and the last one
      gave the header that it keeps. */
  ghost predicate Backed(K: Hasher, rpc: Rpc, nodes: nat, r: Record) {
    exists raw: RawBlock, s: Receipts.Summary, last: nat :: BackedBy(K, rpc, nodes, r, raw, s, last)
  }

  ghost predicate BackedBy(
    K: Hasher, rpc: Rpc, nodes: nat, r: Record, raw: RawBlock, s: Receipts.Summary, last: nat) {
    && SaysAt(rpc, 0, r.block) && nodes == last + 1 && Kept(K, rpc, last, StepOf(r))
    && BlockOf(raw) == r.block && r.successful == s.successful && r.failed == s.failed
    && AllVouch(K, rpc, nodes, raw, s)
  }

  ghost predicate AllVouch(K: Hasher, rpc: Rpc, nodes: nat, raw: RawBlock, s: Receipts.Summary) {
    AllBelow(nodes, (v: nat) => Vouches(K, rpc, v, raw, s))
  }

  lemma {:induction false} RecordStands(K: Hasher, rpc: Rpc, nodes: nat, raw: RawBlock, w: Word, r: Record)
    requires StatedByAll(K, rpc, nodes, raw, w) && SaysAt(rpc, 0, BlockOf(raw))
    requires r == Record(BlockOf(raw), w.header, w.summary.successful, w.summary.failed)
    ensures Confirmed(K, r) && Backed(K, rpc, nodes, r)
  {
    var last: nat :| StatedUpTo(K, rpc, nodes, raw, w, last);
    StatedIsConfirmed(K, rpc, last, raw, w, r);
    StatedIsBacked(K, rpc, nodes, raw, w, r, last);
  }

  lemma {:induction false} StatedIsBacked(
    K: Hasher, rpc: Rpc, nodes: nat, raw: RawBlock, w: Word, r: Record, last: nat)
    requires StatedUpTo(K, rpc, nodes, raw, w, last)
    requires SaysAt(rpc, 0, BlockOf(raw))
    requires r == Record(BlockOf(raw), w.header, w.summary.successful, w.summary.failed)
    ensures Backed(K, rpc, nodes, r)
  {
    assert Kept(K, rpc, last, StepOf(r)) by { StatedVouches(K, rpc, last, raw, w); }
    assert BackedBy(K, rpc, nodes, r, raw, w.summary, last);
  }

  lemma {:induction false} StatedIsConfirmed(K: Hasher, rpc: Rpc, node: nat, raw: RawBlock, w: Word, r: Record)
    requires Stated(K, rpc, node, raw, w)
    requires r == Record(BlockOf(raw), w.header, w.summary.successful, w.summary.failed)
    ensures Headed(K, StepOf(r)) && Sound(K, r)
  {
    StatedVouches(K, rpc, node, raw, w);
    var c: nat :| KeptIn(K, rpc, node, StepOf(r), c);
    assert SoundBy(K, r, raw, w.summary);
  }

  ghost predicate AllBacked(K: Hasher, rpc: Rpc, nodes: nat, rs: seq<Record>) {
    rs == [] || (AllBacked(K, rpc, nodes, rs[..|rs| - 1]) && Backed(K, rpc, nodes, rs[|rs| - 1]))
  }

  lemma {:induction false} BackedAppend(K: Hasher, rpc: Rpc, nodes: nat, rs: seq<Record>, r: Record)
    requires AllBacked(K, rpc, nodes, rs) && Backed(K, rpc, nodes, r)
    ensures AllBacked(K, rpc, nodes, rs + [r])
  {
    assert (rs + [r])[..|rs|] == rs;
  }

  /** The validator gave this block for its height, and a header for it. */
  ghost predicate GivesBlock(K: Hasher, rpc: Rpc, node: nat, b: Block) {
    exists header :: Gives(K, rpc, node, Step(b, header))
  }

  lemma {:induction false} BlockGiven(K: Hasher, rpc: Rpc, node: nat, b: Block)
    requires SaysAt(rpc, node, b) && HeaderGiven(K, rpc, node, b)
    ensures GivesBlock(K, rpc, node, b)
  {
    var header :| Kept(K, rpc, node, Step(b, header));
    SaysGives(K, rpc, node, Step(b, header));
  }

  /** The validator gave both blocks. */
  ghost predicate GivesBoth(K: Hasher, rpc: Rpc, node: nat, a: Block, b: Block) {
    GivesBlock(K, rpc, node, a) && GivesBlock(K, rpc, node, b)
  }

  /** Every validator gave both blocks. */
  ghost predicate EndsShared(K: Hasher, rpc: Rpc, nodes: nat, anchor: Block, last: Block) {
    forall v: nat :: v < nodes ==> GivesBoth(K, rpc, v, anchor, last)
  }

  /** The block that place `i` of the records must follow. */
  function Before(anchor: Block, rs: seq<Record>, i: nat): Block
    requires i <= |rs|
  {
    if i == 0 then anchor else rs[i - 1].block
  }

  predicate RecordFollows(anchor: Block, rs: seq<Record>, i: nat)
    requires i < |rs|
  {
    Follows(Before(anchor, rs, i), rs[i].block)
  }

  /** Consecutive blocks up from the anchor. */
  ghost predicate CountedUp(anchor: Block, rs: seq<Record>) {
    forall i: nat :: i < |rs| ==> RecordFollows(anchor, rs, i)
  }

  /** The counted blocks so far, and the one that the next must follow. */
  ghost predicate Counting(anchor: Block, rs: seq<Record>, previous: Block) {
    CountedUp(anchor, rs) && previous == Before(anchor, rs, |rs|)
  }

  ghost predicate NextRecord(K: Hasher, rpc: Rpc, nodes: nat, previous: Block, r: Record) {
    Follows(previous, r.block) && Confirmed(K, r) && Backed(K, rpc, nodes, r)
  }

  lemma {:induction false} CountingAppend(anchor: Block, rs: seq<Record>, previous: Block, r: Record)
    requires Counting(anchor, rs, previous) && Follows(previous, r.block)
    ensures Counting(anchor, rs + [r], r.block)
  {
    forall i: nat | i < |rs| + 1 ensures RecordFollows(anchor, rs + [r], i) {
      if i < |rs| { assert RecordFollows(anchor, rs, i); }
    }
  }

  lemma {:induction false} ConfirmedAppend(K: Hasher, rs: seq<Record>, r: Record)
    requires AllConfirmed(K, rs) && Confirmed(K, r)
    ensures AllConfirmed(K, rs + [r])
  {
  }

  ghost predicate CountedSoFar(K: Hasher, rpc: Rpc, nodes: nat, anchor: Block, rs: seq<Record>, previous: Block) {
    exists n: nat :: CountedWith(K, rpc, nodes, anchor, rs, previous, n)
  }

  /** So many are counted. */
  ghost predicate CountedWith(
    K: Hasher, rpc: Rpc, nodes: nat, anchor: Block, rs: seq<Record>, previous: Block, n: nat) {
    n == |rs| && Counting(anchor, rs, previous) && AllConfirmed(K, rs) && AllBacked(K, rpc, nodes, rs)
  }

  lemma {:induction false} CountedMeans(
    K: Hasher, rpc: Rpc, nodes: nat, anchor: Block, rs: seq<Record>, previous: Block)
    requires CountedSoFar(K, rpc, nodes, anchor, rs, previous)
    ensures CountedUp(anchor, rs) && previous == Before(anchor, rs, |rs|)
    ensures AllConfirmed(K, rs) && AllBacked(K, rpc, nodes, rs)
  {
    var n: nat :| CountedWith(K, rpc, nodes, anchor, rs, previous, n);
  }

  lemma {:induction false} RecordAppend(
    K: Hasher, rpc: Rpc, nodes: nat, anchor: Block, rs: seq<Record>, previous: Block, r: Record)
    requires CountedSoFar(K, rpc, nodes, anchor, rs, previous) && NextRecord(K, rpc, nodes, previous, r)
    ensures CountedSoFar(K, rpc, nodes, anchor, rs + [r], r.block)
  {
    CountedMeans(K, rpc, nodes, anchor, rs, previous);
    CountingAppend(anchor, rs, previous, r);
    ConfirmedAppend(K, rs, r);
    BackedAppend(K, rpc, nodes, rs, r);
    assert CountedWith(K, rpc, nodes, anchor, rs + [r], r.block, |rs| + 1);
  }

  ghost function RecordOf(e: Entry): Record {
    Record(BlockOf(e.raw), e.header, SummaryOf(e).successful, SummaryOf(e).failed)
  }

  function Last(rs: seq<Record>): Block
    requires rs != []
  {
    rs[|rs| - 1].block
  }

  // ------------------------------------------------------------------- report

  /** `max` of the start heights. */
  function FirstHeight(cs: seq<Capture>): (n: nat)
    requires cs != []
    ensures forall i :: 0 <= i < |cs| ==> cs[i].start.number <= n
    ensures exists i :: 0 <= i < |cs| && cs[i].start.number == n
  {
    if |cs| == 1 then cs[0].start.number
    else
      var rest := FirstHeight(cs[1..]);
      if cs[0].start.number >= rest then cs[0].start.number else rest
  }

  /** `min` of the end heights. */
  function LastHeight(cs: seq<Capture>): (n: nat)
    requires cs != []
    ensures forall i :: 0 <= i < |cs| ==> n <= cs[i].end.number
    ensures exists i :: 0 <= i < |cs| && cs[i].end.number == n
  {
    if |cs| == 1 then cs[0].end.number
    else
      var rest := LastHeight(cs[1..]);
      if cs[0].end.number <= rest then cs[0].end.number else rest
  }

  datatype Report = Report(
    first: nat,
    last: nat,
    anchor: Block,
    records: seq<Record>,
    /** By validator: from its start block to the anchor, and from the last counted block to its
        end block. */
    below: seq<seq<Step>>,
    above: seq<seq<Step>>,
    committed: nat,
    successful: nat,
    failed: nat)

  ghost function SumTransactions(rs: seq<Record>): nat {
    if rs == [] then 0 else SumTransactions(rs[..|rs| - 1]) + rs[|rs| - 1].block.transactions
  }

  ghost function SumSuccessful(rs: seq<Record>): nat {
    if rs == [] then 0 else SumSuccessful(rs[..|rs| - 1]) + rs[|rs| - 1].successful
  }

  ghost function SumFailed(rs: seq<Record>): nat {
    if rs == [] then 0 else SumFailed(rs[..|rs| - 1]) + rs[|rs| - 1].failed
  }

  /** The paths of validator `v` reach from its start block to the anchor, and from the last counted
      block to its end block. */
  predicate Spans(c: Capture, r: Report, v: nat) {
    && v < |r.below| && v < |r.above|
    && c.start.number + |r.below[v]| == r.first && r.first + |r.records| == r.last
    && r.last + |r.above[v]| == c.end.number
  }

  predicate Reaches(c: Capture, r: Report, v: nat, h: nat) {
    Spans(c, r, v) && c.start.number <= h <= c.end.number
  }

  /** The block of validator `v` at height `h`, with its header. */
  function StepOn(c: Capture, r: Report, v: nat, h: nat): Step
    requires Reaches(c, r, v, h)
  {
    if h == c.start.number then Step(c.start, c.startHeader)
    else if h <= r.first then r.below[v][h - c.start.number - 1]
    else if h <= r.last then StepOf(r.records[h - r.first - 1])
    else r.above[v][h - r.last - 1]
  }

  /** The blocks of validator `v` up to height `h` are linked, and have their headers. */
  ghost predicate LinkedTo(K: Hasher, c: Capture, r: Report, v: nat, h: nat)
    requires Reaches(c, r, v, h)
  {
    && Headed(K, StepOn(c, r, v, h))
    && (h > c.start.number ==>
          LinkedTo(K, c, r, v, h - 1) && Follows(StepOn(c, r, v, h - 1).block, StepOn(c, r, v, h).block))
  }

  /** The certified start block, the anchor, every counted block and the certified end block of
      validator `v` lie on one hash-linked chain of consecutive heights, each with its header. */
  ghost predicate OneAncestry(K: Hasher, c: Capture, r: Report, v: nat) {
    && Spans(c, r, v) && LinkedTo(K, c, r, v, c.end.number)
    && StepOn(c, r, v, r.first).block == r.anchor && StepOn(c, r, v, c.end.number).block == c.end
  }

  lemma {:induction false} LinkedBelow(K: Hasher, c: Capture, r: Report, v: nat, h: nat, top: nat)
    requires Reaches(c, r, v, top) && c.start.number <= h <= top && LinkedTo(K, c, r, v, top)
    ensures LinkedTo(K, c, r, v, h)
    decreases top
  {
    if h < top { LinkedBelow(K, c, r, v, h, top - 1); }
  }

  lemma {:induction false} HeightIs(K: Hasher, c: Capture, r: Report, v: nat, h: nat)
    requires Reaches(c, r, v, h) && LinkedTo(K, c, r, v, h)
    ensures StepOn(c, r, v, h).block.number == h
    decreases h
  {
    if h > c.start.number { HeightIs(K, c, r, v, h - 1); }
  }

  /** What the ancestry says about one height. */
  lemma {:induction false} AncestryAt(K: Hasher, c: Capture, r: Report, v: nat, h: nat)
    requires OneAncestry(K, c, r, v) && Reaches(c, r, v, h)
    ensures Headed(K, StepOn(c, r, v, h)) && StepOn(c, r, v, h).block.number == h
  {
    LinkedBelow(K, c, r, v, h, c.end.number);
    HeightIs(K, c, r, v, h);
  }

  /** And about two. */
  lemma {:induction false} AncestryNext(K: Hasher, c: Capture, r: Report, v: nat, h: nat, k: nat)
    requires OneAncestry(K, c, r, v) && Reaches(c, r, v, h) && Reaches(c, r, v, k) && k == h + 1
    ensures Headed(K, StepOn(c, r, v, k)) && Follows(StepOn(c, r, v, h).block, StepOn(c, r, v, k).block)
  {
    LinkedBelow(K, c, r, v, k, c.end.number);
  }

  /** The counted heights are `first + 1 .. last`, each once. */
  ghost predicate CountedOnce(K: Hasher, r: Report) {
    && r.first < r.last && |r.records| == r.last - r.first
    && (forall i :: 0 <= i < |r.records| ==> r.records[i].block.number == r.first + 1 + i)
    && AllConfirmed(K, r.records)
    && r.committed == SumTransactions(r.records)
    && r.successful == SumSuccessful(r.records)
    && r.failed == SumFailed(r.records)
  }

  ghost predicate Checked(K: Hasher, c: Capture) {
    && c.start.number <= c.end.number && c.startView <= c.endView
    && HeaderOf(K, c.startHeader, c.start) && HeaderOf(K, c.endHeader, c.end)
  }

  ghost predicate AllChecked(K: Hasher, cs: seq<Capture>) {
    forall v :: 0 <= v < |cs| ==> Checked(K, cs[v])
  }

  /** The capture is good, and the validator still gives its two blocks. */
  ghost predicate Stands(K: Hasher, rpc: Rpc, c: Capture, v: nat) {
    exists i: nat, j: nat :: StandsIn(K, rpc, c, v, i, j)
  }

  ghost predicate StandsIn(K: Hasher, rpc: Rpc, c: Capture, v: nat, i: nat, j: nat) {
    && Checked(K, c)
    && Shows(rpc.byNumber(i, v, c.start.number), c.start) && Shows(rpc.byNumber(j, v, c.end.number), c.end)
  }

  lemma {:induction false} SaysStands(K: Hasher, rpc: Rpc, c: Capture, v: nat)
    requires Checked(K, c) && SaysAt(rpc, v, c.start) && SaysAt(rpc, v, c.end)
    ensures Stands(K, rpc, c, v)
  {
    var i: nat :| Shows(rpc.byNumber(i, v, c.start.number), c.start);
    var j: nat :| Shows(rpc.byNumber(j, v, c.end.number), c.end);
    assert StandsIn(K, rpc, c, v, i, j);
  }

  /** So do the first `n` captures. */
  ghost predicate StandTo(K: Hasher, rpc: Rpc, cs: seq<Capture>, n: nat)
    requires n <= |cs|
  {
    n == 0 || (StandTo(K, rpc, cs, n - 1) && Stands(K, rpc, cs[n - 1], n - 1))
  }

  lemma {:induction false} StandsAt(K: Hasher, rpc: Rpc, cs: seq<Capture>, n: nat, v: nat)
    requires v < n <= |cs| && StandTo(K, rpc, cs, n)
    ensures Checked(K, cs[v])
  {
    if v < n - 1 {
      StandsAt(K, rpc, cs, n - 1, v);
    } else {
      var i: nat, j: nat :| StandsIn(K, rpc, cs[v], v, i, j);
    }
  }

  lemma {:induction false} AllStand(K: Hasher, rpc: Rpc, cs: seq<Capture>)
    requires StandTo(K, rpc, cs, |cs|)
    ensures AllChecked(K, cs)
  {
    forall v | 0 <= v < |cs| ensures Checked(K, cs[v]) { StandsAt(K, rpc, cs, |cs|, v); }
  }

  /** All boundaries were taken from the chain of `w`. */
  ghost predicate AllHonest(K: Hasher, w: World, cs: seq<Capture>) {
    HonestTo(K, w, cs, |cs|)
  }

  ghost predicate HonestTo(K: Hasher, w: World, cs: seq<Capture>, n: nat)
    requires n <= |cs|
  {
    n == 0 || (HonestTo(K, w, cs, n - 1) && HonestAt(K, w, cs[n - 1]))
  }

  /** The boundaries of one capture are from the chain of `w`. */
  ghost predicate HonestAt(K: Hasher, w: World, c: Capture) {
    && OnChain(w, c.start) && OnChain(w, c.end)
    && HonestCapture(K, c, EntryAt(w, c.start.number), EntryAt(w, c.end.number))
  }

  lemma {:induction false} EachHonest(K: Hasher, w: World, cs: seq<Capture>, n: nat, v: nat)
    requires v < n <= |cs| && HonestTo(K, w, cs, n)
    ensures HonestAt(K, w, cs[v])
  {
    if v < n - 1 { EachHonest(K, w, cs, n - 1, v); }
  }

  /** Both ends are on the chain, between the boundaries of the capture. */
  ghost predicate Between(w: World, c: Capture, anchor: Block, last: Block) {
    OnChain(w, anchor) && OnChain(w, last) && c.start.number <= anchor.number && last.number <= c.end.number
  }

  lemma {:induction false} HonestIsServed(K: Hasher, rpc: Rpc, w: World, cs: seq<Capture>, v: nat)
    requires v < |cs| && Faithful(K, rpc, w) && AllHonest(K, w, cs)
    ensures
      var s, e := EntryAt(w, cs[v].start.number), EntryAt(w, cs[v].end.number);
      Served(K, rpc, s) && Served(K, rpc, e) && HonestCapture(K, cs[v], s, e)
  {
    EachHonest(K, w, cs, |cs|, v);
    CoveredIsServed(K, rpc, w, cs[v].start.number);
    CoveredIsServed(K, rpc, w, cs[v].end.number);
  }

  /** `path` leads from `lower` to `upper`. */
  ghost predicate Walked(K: Hasher, lower: Block, path: seq<Step>, upper: Block) {
    Linked(lower, path) && EndOf(lower, path) == upper && AllHeaded(K, path)
  }

  lemma {:induction false} WalkedAppend(K: Hasher, lower: Block, path: seq<Step>, parent: Block, s: Step)
    requires Walked(K, lower, path, parent) && Headed(K, s) && Follows(parent, s.block)
    ensures Walked(K, lower, path + [s], s.block)
  {
    LinkedAppend(lower, path, s);
  }

  /** `path` leads from `lower` to `upper` over blocks that the validator gave. */
  ghost predicate WalkedOn(K: Hasher, rpc: Rpc, node: nat, lower: Block, path: seq<Step>, upper: Block)
    decreases |path|
  {
    if path == [] then lower == upper
    else
      var init, s := path[..|path| - 1], path[|path| - 1];
      && s.block == upper && Gives(K, rpc, node, s) && Follows(EndOf(lower, init), upper)
      && WalkedOn(K, rpc, node, lower, init, EndOf(lower, init))
  }

  lemma {:induction false} WalkedOnAppend(
    K: Hasher, rpc: Rpc, node: nat, lower: Block, path: seq<Step>, parent: Block, s: Step)
    requires WalkedOn(K, rpc, node, lower, path, parent) && Gives(K, rpc, node, s) && Follows(parent, s.block)
    ensures WalkedOn(K, rpc, node, lower, path + [s], s.block)
  {
    assert (path + [s])[..|path|] == path;
    assert EndOf(lower, path) == parent;
  }

  lemma {:induction false} WalkedIsLinked(
    K: Hasher, rpc: Rpc, node: nat, lower: Block, path: seq<Step>, upper: Block)
    requires WalkedOn(K, rpc, node, lower, path, upper)
    ensures Walked(K, lower, path, upper) && AllGiven(K, rpc, node, path)
    decreases |path|
  {
    if path != [] {
      var init, s := path[..|path| - 1], path[|path| - 1];
      WalkedIsLinked(K, rpc, node, lower, init, EndOf(lower, init));
      GivenIsHeaded(K, rpc, node, s);
      assert path == init + [s];
      assert Walked(K, lower, init + [s], s.block) by { WalkedAppend(K, lower, init, EndOf(lower, init), s); }
    }
  }

  /** The walks of one validator, below and above the counted interval. */
  ghost predicate Walks(
    K: Hasher, rpc: Rpc, c: Capture, v: nat, anchor: Block, last: Block, below: seq<Step>, above: seq<Step>) {
    WalkedOn(K, rpc, v, c.start, below, anchor) && WalkedOn(K, rpc, v, last, above, c.end)
  }

  /** Those of the first `n` validators. */
  ghost predicate WalksTo(
    K: Hasher, rpc: Rpc, cs: seq<Capture>, anchor: Block, last: Block,
    below: seq<seq<Step>>, above: seq<seq<Step>>, n: nat)
    requires n <= |cs| && n <= |below| && n <= |above|
  {
    n == 0 || (WalksTo(K, rpc, cs, anchor, last, below, above, n - 1)
               && Walks(K, rpc, cs[n - 1], n - 1, anchor, last, below[n - 1], above[n - 1]))
  }

  lemma {:induction false} WalksAppend(
    K: Hasher, rpc: Rpc, cs: seq<Capture>, anchor: Block, last: Block,
    below: seq<seq<Step>>, above: seq<seq<Step>>, n: nat, lower: seq<Step>, upper: seq<Step>)
    requires n <= |cs| && n <= |below| && n <= |above| && WalksTo(K, rpc, cs, anchor, last, below, above, n)
    ensures WalksTo(K, rpc, cs, anchor, last, below + [lower], above + [upper], n)
  {
    if n > 0 {
      assert WalksTo(K, rpc, cs, anchor, last, below + [lower], above + [upper], n - 1) by {
        WalksAppend(K, rpc, cs, anchor, last, below, above, n - 1, lower, upper);
      }
      assert (below + [lower])[n - 1] == below[n - 1] && (above + [upper])[n - 1] == above[n - 1];
    }
  }

  lemma {:induction false} WalksAt(
    K: Hasher, rpc: Rpc, cs: seq<Capture>, anchor: Block, last: Block,
    below: seq<seq<Step>>, above: seq<seq<Step>>, n: nat, v: nat)
    requires v < n <= |cs| && n <= |below| && n <= |above| && WalksTo(K, rpc, cs, anchor, last, below, above, n)
    ensures WalkedOn(K, rpc, v, cs[v].start, below[v], anchor) && WalkedOn(K, rpc, v, last, above[v], cs[v].end)
  {
    if v < n - 1 {
      WalksAt(K, rpc, cs, anchor, last, below, above, n - 1, v);
    }
  }

  /** The three pieces of a validator's chain. */
  ghost predicate Pieces(K: Hasher, c: Capture, r: Report, v: nat) {
    && Spans(c, r, v) && r.records != [] && HeaderOf(K, c.startHeader, c.start)
    && Walked(K, c.start, r.below[v], r.anchor)
    && CountedUp(r.anchor, r.records) && AllConfirmed(K, r.records)
    && Walked(K, Last(r.records), r.above[v], c.end)
  }

  lemma {:induction false} JoinBelow(K: Hasher, c: Capture, r: Report, v: nat, h: nat)
    requires Spans(c, r, v) && Walked(K, c.start, r.below[v], r.anchor) && c.start.number < h <= r.first
    ensures Headed(K, StepOn(c, r, v, h))
    ensures Follows(StepOn(c, r, v, h - 1).block, StepOn(c, r, v, h).block)
  {
    var i := h - c.start.number - 1;
    assert StepFollows(c.start, r.below[v], i) && r.below[v][i] in r.below[v];
  }

  lemma {:induction false} JoinCounted(K: Hasher, c: Capture, r: Report, v: nat, h: nat)
    requires Spans(c, r, v) && EndOf(c.start, r.below[v]) == r.anchor && r.first < h <= r.last
    requires CountedUp(r.anchor, r.records) && AllConfirmed(K, r.records)
    ensures Headed(K, StepOn(c, r, v, h))
    ensures Follows(StepOn(c, r, v, h - 1).block, StepOn(c, r, v, h).block)
  {
    var i := h - r.first - 1;
    assert RecordFollows(r.anchor, r.records, i) && r.records[i] in r.records;
    assert Confirmed(K, r.records[i]);
  }

  lemma {:induction false} JoinAbove(K: Hasher, c: Capture, r: Report, v: nat, h: nat)
    requires Spans(c, r, v) && r.records != [] && r.last < h <= c.end.number
    requires Walked(K, Last(r.records), r.above[v], c.end)
    ensures Headed(K, StepOn(c, r, v, h))
    ensures Follows(StepOn(c, r, v, h - 1).block, StepOn(c, r, v, h).block)
  {
    var i := h - r.last - 1;
    assert StepFollows(Last(r.records), r.above[v], i) && r.above[v][i] in r.above[v];
  }

  /** They meet where they should. */
  lemma {:induction false} JoinAt(K: Hasher, c: Capture, r: Report, v: nat, h: nat)
    requires Pieces(K, c, r, v) && c.start.number < h <= c.end.number
    ensures Headed(K, StepOn(c, r, v, h))
    ensures Follows(StepOn(c, r, v, h - 1).block, StepOn(c, r, v, h).block)
  {
    if h <= r.first {
      JoinBelow(K, c, r, v, h);
    } else if h <= r.last {
      JoinCounted(K, c, r, v, h);
    } else {
      JoinAbove(K, c, r, v, h);
    }
  }

  lemma {:induction false} JoinTo(K: Hasher, c: Capture, r: Report, v: nat, h: nat)
    requires Pieces(K, c, r, v) && c.start.number <= h <= c.end.number
    ensures LinkedTo(K, c, r, v, h)
    decreases h
  {
    if h > c.start.number {
      assert LinkedTo(K, c, r, v, h - 1) by { JoinTo(K, c, r, v, h - 1); }
      JoinAt(K, c, r, v, h);
    }
  }

  /** Joining the three pieces of a validator's chain. */
  lemma {:induction false} JoinAncestry(K: Hasher, c: Capture, r: Report, v: nat)
    requires Pieces(K, c, r, v)
    ensures OneAncestry(K, c, r, v)
  {
    assert LinkedTo(K, c, r, v, c.end.number) by { JoinTo(K, c, r, v, c.end.number); }
  }

  lemma {:induction false} RecordNumbers(anchor: Block, rs: seq<Record>)
    requires CountedUp(anchor, rs)
    ensures forall i :: 0 <= i < |rs| ==> rs[i].block.number == anchor.number + 1 + i
  {
    forall i | 0 <= i < |rs| ensures rs[i].block.number == anchor.number + 1 + i { RecordNumber(anchor, rs, i); }
  }

  lemma {:induction false} RecordNumber(anchor: Block, rs: seq<Record>, i: nat)
    requires CountedUp(anchor, rs) && i < |rs|
    ensures rs[i].block.number == anchor.number + 1 + i
  {
    assert RecordFollows(anchor, rs, i);
    if i > 0 { RecordNumber(anchor, rs, i - 1); }
  }

  lemma {:induction false} HeightsCovered(w: World, K: Hasher, cs: seq<Capture>)
    requires cs != [] && AllHonest(K, w, cs)
    ensures Covers(w, FirstHeight(cs)) && Covers(w, LastHeight(cs))
  {
    var i :| 0 <= i < |cs| && cs[i].start.number == FirstHeight(cs);
    var j :| 0 <= j < |cs| && cs[j].end.number == LastHeight(cs);
    EachHonest(K, w, cs, |cs|, i);
    EachHonest(K, w, cs, |cs|, j);
  }

  /** A confirmed record counts each of its block's transactions once. */
  lemma {:induction false} RecordPartition(K: Hasher, r: Record)
    requires Sound(K, r)
    ensures r.successful + r.failed == r.block.transactions
  {
    var raw: RawBlock, s: Receipts.Summary :| SoundBy(K, r, raw, s);
    var rs :| Accepted(K, rs, RefOf(raw)) && s == SummaryOf(Entry(raw, [], rs));
    AcceptedConserves(K, rs, RefOf(raw));
  }

  lemma {:induction false} CountsPartition(K: Hasher, rs: seq<Record>)
    requires AllConfirmed(K, rs)
    ensures SumSuccessful(rs) + SumFailed(rs) == SumTransactions(rs)
  {
    if rs != [] {
      var init, last := rs[..|rs| - 1], rs[|rs| - 1];
      assert last in rs && forall r :: r in init ==> r in rs;
      CountsPartition(K, init);
      RecordPartition(K, last);
    }
  }

  /** What an accepted report guarantees. */
  ghost predicate GoodReport(K: Hasher, cs: seq<Capture>, r: Report)
    requires cs != []
  {
    && r.first == FirstHeight(cs) && r.last == LastHeight(cs)
    && CountedOnce(K, r)
    && |r.below| == |r.above| == |cs|
    && forall v :: 0 <= v < |cs| ==> OneAncestry(K, cs[v], r, v)
  }

  /** Every counted block is vouched for by every validator, and so are the ends; the paths to the
      certified blocks are the validators' own. */
  ghost predicate Witnessed(K: Hasher, rpc: Rpc, cs: seq<Capture>, r: Report) {
    && r.records != [] && |cs| == |r.below| == |r.above|
    && var last := Last(r.records);
    && AllBacked(K, rpc, |cs|, r.records) && EndsShared(K, rpc, |cs|, r.anchor, last)
    && WalksTo(K, rpc, cs, r.anchor, last, r.below, r.above, |cs|)
  }

  /** The parts that the audit has collected when it is done. */
  ghost predicate Collected(K: Hasher, cs: seq<Capture>, r: Report) {
    && r.first < r.last && r.anchor.number == r.first && |r.records| == r.last - r.first
    && CountedUp(r.anchor, r.records) && AllConfirmed(K, r.records)
    && |r.below| == |r.above| == |cs|
    && (forall v :: 0 <= v < |cs| ==> Walked(K, cs[v].start, r.below[v], r.anchor))
    && (forall v :: 0 <= v < |cs| ==> Walked(K, Last(r.records), r.above[v], cs[v].end))
  }

  lemma {:induction false} ReportCollected(K: Hasher, rpc: Rpc, cs: seq<Capture>, r: Report)
    requires r.first < r.last && r.anchor.number == r.first && |r.records| == r.last - r.first
    requires CountedUp(r.anchor, r.records) && AllConfirmed(K, r.records) && Witnessed(K, rpc, cs, r)
    ensures Collected(K, cs, r)
  {
    var last := Last(r.records);
    forall v | 0 <= v < |cs|
      ensures Walked(K, cs[v].start, r.below[v], r.anchor) && Walked(K, last, r.above[v], cs[v].end)
    {
      WalksAt(K, rpc, cs, r.anchor, last, r.below, r.above, |cs|, v);
      WalkedIsLinked(K, rpc, v, cs[v].start, r.below[v], r.anchor);
      WalkedIsLinked(K, rpc, v, last, r.above[v], cs[v].end);
    }
  }

  lemma {:induction false} AncestryIsGood(K: Hasher, cs: seq<Capture>, r: Report, v: nat)
    requires AllChecked(K, cs) && Collected(K, cs, r) && v < |cs|
    ensures OneAncestry(K, cs[v], r, v)
  {
    assert Checked(K, cs[v]);
    RecordNumber(r.anchor, r.records, |r.records| - 1);
    LinkedNumbers(cs[v].start, r.below[v], |r.below[v]|);
    LinkedNumbers(Last(r.records), r.above[v], |r.above[v]|);
    JoinAncestry(K, cs[v], r, v);
  }

  ghost predicate Totalled(r: Report) {
    && r.committed == SumTransactions(r.records) && r.successful == SumSuccessful(r.records)
    && r.failed == r.committed - r.successful
  }

  lemma {:induction false} CountIsGood(K: Hasher, cs: seq<Capture>, r: Report)
    requires Collected(K, cs, r) && Totalled(r)
    ensures CountedOnce(K, r)
  {
    RecordNumbers(r.anchor, r.records);
    CountsPartition(K, r.records);
  }

  lemma {:induction false} ReportIsGood(K: Hasher, cs: seq<Capture>, r: Report)
    requires cs != [] && AllChecked(K, cs) && Collected(K, cs, r) && Totalled(r)
    requires r.first == FirstHeight(cs) && r.last == LastHeight(cs)
    ensures GoodReport(K, cs, r)
  {
    CountIsGood(K, cs, r);
    forall v | 0 <= v < |cs| ensures OneAncestry(K, cs[v], r, v) {
      AncestryIsGood(K, cs, r, v);
    }
  }

  class Auditor {
    const K: Hasher
    const rpc: Rpc
    /** Calls made so far. */
    var calls: nat

    constructor (keccak: Hasher, replies: Rpc)
      ensures K == keccak && rpc == replies && calls == 0
    {
      K, rpc, calls := keccak, replies, 0;
    }

    /** `at`.  Here and below a served entry `e` is what an honest fleet would report. */
    method At(node: nat, number: nat, verify: bool, ghost e: Entry) returns (b: Option<Block>)
      modifies this`calls
      ensures b.Some? ==> b.value.number == number && SaysAt(rpc, node, b.value)
      ensures b.Some? && verify ==> HeaderGiven(K, rpc, node, b.value)
      ensures e.raw.number == number && Served(K, rpc, e) ==> b == Some(BlockOf(e.raw))
    {
      var reply := rpc.byNumber(calls, node, number);
      calls := calls + 1;
      b := BlockSummary(reply);
      if b.None? || b.value.number != number {
        return None;
      }
      if verify {
        var header := FetchHeader(node, b.value, e);
        if header.None? {
          return None;
        }
      }
    }

    /** Ask for the exact header of a block, verify it, and keep it. */
    method FetchHeader(node: nat, b: Block, ghost e: Entry) returns (header: Option<seq<byte>>)
      modifies this`calls
      ensures header.Some? ==> Kept(K, rpc, node, Step(b, header.value))
      ensures Served(K, rpc, e) && b == BlockOf(e.raw) ==> header == Some(e.header)
    {
      ghost var c := calls;
      header := rpc.header(calls, node, b.hash);
      assert Served(K, rpc, e) && b == BlockOf(e.raw) ==> GoodHeader(K, e, header);
      calls := calls + 1;
      var ok := VerifyHeader(K, header, b);
      if !ok {
        return None;
      }
      assert KeptIn(K, rpc, node, Step(b, header.value), c);
    }

    /** The captured blocks are still what the validator reports, in order, with their headers. */
    method CheckCapture(node: nat, c: Capture, ghost s: Entry, ghost e: Entry) returns (ok: bool)
      modifies this`calls
      ensures ok ==> Checked(K, c) && SaysAt(rpc, node, c.start) && SaysAt(rpc, node, c.end)
      ensures Served(K, rpc, s) && Served(K, rpc, e) && HonestCapture(K, c, s, e) ==> ok
    {
      if c.end.number < c.start.number || c.endView < c.startView {
        return false;
      }
      var start := At(node, c.start.number, false, s);
      var startOk := VerifyHeader(K, Some(c.startHeader), c.start);
      if start != Some(c.start) || !startOk {
        return false;
      }
      var end := At(node, c.end.number, false, e);
      var endOk := VerifyHeader(K, Some(c.endHeader), c.end);
      if end != Some(c.end) || !endOk {
        return false;
      }
      return true;
    }

    /** `fetch_block_receipts`: up to three tries. */
    method FetchReceipts(node: nat, hash: Hash, expected: nat, ghost e: Entry) returns (rs: Option<seq<RpcReceipt>>)
      modifies this`calls
      ensures calls <= old(calls) + 3
      ensures rs.Some? ==> |rs.value| == expected && SaysReceipts(rpc, node, hash, rs.value)
      ensures Served(K, rpc, e) && hash == e.raw.hash && expected == |e.raw.transactions| ==> rs == Some(e.receipts)
    {
      var attempt := 0;
      while attempt < 3
        invariant attempt <= 3 && calls == old(calls) + attempt
        invariant Served(K, rpc, e) && hash == e.raw.hash ==> attempt == 0
      {
        rs := rpc.receipts(calls, node, hash);
        calls := calls + 1;
        if rs.Some? {
          return if |rs.value| == expected then rs else None;
        }
        attempt := attempt + 1;
      }
      return None;
    }

    /** The receipts of one block from one validator. */
    method CheckReceipts(node: nat, raw: RawBlock, ghost e: Entry) returns (s: Option<Receipts.Summary>)
      modifies this`calls
      ensures s.Some? ==> ReceiptsGiven(K, rpc, node, raw, s.value) && Counted(K, raw, s.value)
      ensures Served(K, rpc, e) && raw == e.raw ==> s == Some(SummaryOf(e))
    {
      var rs := FetchReceipts(node, raw.hash, |raw.transactions|, e);
      if rs.None? {
        return None;
      }
      s := Summarize(K, rs.value, RefOf(raw));
      assert s.Some? ==> Sums(K, rpc, node, raw, rs.value, s.value);
      assert Served(K, rpc, e) && raw == e.raw ==> GoodReceipts(K, e, rpc.receipts(0, 0, e.raw.hash));
    }

    /** One validator's word on one counted block. */
    method CheckRemote(node: nat, raw: RawBlock, ghost e: Entry) returns (r: Option<Word>)
      modifies this`calls
      ensures r.Some? ==> Stated(K, rpc, node, raw, r.value)
      ensures Served(K, rpc, e) && raw == e.raw ==> r == Some(WordOf(e))
    {
      var remote := Some(raw);
      if node != 0 {
        remote := rpc.byHash(calls, node, raw.hash);
        assert Matches(remote, raw) ==> SaysBlock(rpc, node, raw);
        calls := calls + 1;
      }
      assert Served(K, rpc, e) && raw == e.raw ==> GoodBlock(e, rpc.byHash(0, 0, e.raw.hash));
      if BlockSummary(remote) != Some(BlockOf(raw)) || remote.value.transactions != raw.transactions {
        return None;
      }
      var header := FetchHeader(node, BlockOf(raw), e);
      if header.None? {
        return None;
      }
      var s := CheckReceipts(node, raw, e);
      if s.None? {
        return None;
      }
      r := Some(Word(s.value, header.value));
      VouchedFor(K, rpc, node, raw, r.value);
    }

    /** Every validator's word on one counted block; they must agree on its execution.  The last
        one's header is kept. */
    method CheckRemotes(nodes: nat, raw: RawBlock, ghost e: Entry) returns (r: Option<Word>)
      requires nodes > 0
      modifies this`calls
      ensures r.Some? ==> StatedByAll(K, rpc, nodes, raw, r.value)
      ensures Served(K, rpc, e) && raw == e.raw ==> r == Some(WordOf(e))
    {
      ghost var honest, word := Served(K, rpc, e) && raw == e.raw, WordOf(e);
      r := CheckRemote(0, raw, e);
      if r.Some? { StatedByOne(K, rpc, raw, r.value); }
      var node := 1;
      while r.Some? && node < nodes
        invariant 0 < node <= nodes && (r.Some? ==> StatedByAll(K, rpc, node, raw, r.value))
        invariant honest ==> r == Some(word)
        decreases nodes - node
      {
        var verified := CheckRemote(node, raw, e);
        if verified.None? || verified.value.summary != r.value.summary {
          return None;
        }
        StatedByNext(K, rpc, node, raw, r.value, verified.value);
        r := verified;
        node := node + 1;
      }
    }

    /** One counted height: the first validator's block, linked to the previous one, confirmed
        by every validator with header and receipts. */
    method CountBlock(nodes: nat, number: nat, previous: Block, ghost e: Entry) returns (r: Option<Record>)
      requires nodes > 0
      modifies this`calls
      ensures r.Some? ==>
                && r.value.block.number == number && r.value.block.parentHash == previous.hash
                && Confirmed(K, r.value) && Backed(K, rpc, nodes, r.value)
      ensures Served(K, rpc, e) && e.raw.number == number && e.raw.parentHash == previous.hash ==>
                r == Some(RecordOf(e))
    {
      var reply := rpc.byNumber(calls, 0, number);
      calls := calls + 1;
      assert Served(K, rpc, e) && e.raw.number == number ==> GoodBlock(e, reply);
      var block := BlockSummary(reply);
      if block.None? || block.value.number != number || block.value.parentHash != previous.hash {
        return None;
      }
      var word := CheckRemotes(nodes, reply.value, e);
      if word.None? {
        return None;
      }
      var s := word.value.summary;
      var record := Record(block.value, word.value.header, s.successful, s.failed);
      RecordStands(K, rpc, nodes, reply.value, word.value, record);
      return Some(record);
    }

    /** The counted block after `previous`; on an honest chain there is one, and it is the
        chain's. */
    method CountChild(nodes: nat, previous: Block, ghost w: World) returns (r: Option<Record>)
      requires nodes > 0
      modifies this`calls
      ensures r.Some? ==>
                NextRecord(K, rpc, nodes, previous, r.value)
      ensures Faithful(K, rpc, w) && OnChain(w, previous) && Covers(w, previous.number + 1) ==>
                r.Some? && OnChain(w, r.value.block)
    {
      ghost var honest := Faithful(K, rpc, w) && OnChain(w, previous) && Covers(w, previous.number + 1);
      if honest { NextOnChain(K, rpc, w, previous); }
      r := CountBlock(nodes, previous.number + 1, previous, EntryAt(w, previous.number + 1));
    }

    /** The block at a height of one validator, with its header. */
    method StepAt(node: nat, number: nat, ghost e: Entry) returns (s: Option<Step>)
      modifies this`calls
      ensures s.Some? ==> s.value.block.number == number && Gives(K, rpc, node, s.value)
      ensures e.raw.number == number && Served(K, rpc, e) ==> s == Some(Step(BlockOf(e.raw), e.header))
    {
      var b := At(node, number, false, e);
      if b.None? {
        return None;
      }
      var header := FetchHeader(node, b.value, e);
      if header.None? {
        return None;
      }
      s := Some(Step(b.value, header.value));
      SaysGives(K, rpc, node, s.value);
    }

    /** The verified block after `parent` on one validator. */
    method Child(node: nat, parent: Block, ghost w: World) returns (s: Option<Step>)
      modifies this`calls
      ensures s.Some? ==>
                Follows(parent, s.value.block) && Gives(K, rpc, node, s.value)
      ensures Faithful(K, rpc, w) && OnChain(w, parent) && Covers(w, parent.number + 1) ==>
                s.Some? && OnChain(w, s.value.block)
    {
      ghost var honest := Faithful(K, rpc, w) && OnChain(w, parent) && Covers(w, parent.number + 1);
      if honest { NextOnChain(K, rpc, w, parent); }
      s := StepAt(node, parent.number + 1, EntryAt(w, parent.number + 1));
      if s.Some? && s.value.block.parentHash != parent.hash {
        return None;
      }
    }

    /** The heights `first + 1 .. last`, each counted once. */
    method CountInterval(nodes: nat, anchor: Block, last: nat, ghost w: World) returns (r: Option<seq<Record>>)
      requires nodes > 0 && anchor.number < last
      modifies this`calls
      ensures r.Some? ==>
                && |r.value| == last - anchor.number
                && CountedUp(anchor, r.value)
                && AllConfirmed(K, r.value) && AllBacked(K, rpc, nodes, r.value)
      ensures Faithful(K, rpc, w) && OnChain(w, anchor) && Covers(w, last) ==>
                r.Some? && OnChain(w, Last(r.value))
    {
      var records: seq<Record>, previous := [], anchor;
      assert CountedWith(K, rpc, nodes, anchor, records, previous, 0);
      ghost var honest := Faithful(K, rpc, w) && OnChain(w, anchor) && Covers(w, last);
      for number := anchor.number + 1 to last + 1
        invariant |records| == number - anchor.number - 1
        invariant CountedSoFar(K, rpc, nodes, anchor, records, previous)
        invariant previous.number == number - 1
        invariant honest ==> OnChain(w, previous)
      {
        var r := CountChild(nodes, previous, w);
        if r.None? {
          return None;
        }
        RecordAppend(K, rpc, nodes, anchor, records, previous, r.value);
        records := records + [r.value];
        previous := r.value.block;
      }
      CountedMeans(K, rpc, nodes, anchor, records, previous);
      return Some(records);
    }

    /** The ancestry walk from `lower` up to `upper` on one validator. */
    method Walk(node: nat, lower: Block, upper: Block, ghost w: World) returns (r: Option<seq<Step>>)
      modifies this`calls
      ensures r.Some? ==> WalkedOn(K, rpc, node, lower, r.value, upper)
      ensures Faithful(K, rpc, w) && OnChain(w, lower) && OnChain(w, upper) && lower.number <= upper.number ==> r.Some?
    {
      var path: seq<Step>, parent, number := [], lower, lower.number + 1;
      ghost var honest := Faithful(K, rpc, w) && OnChain(w, lower) && OnChain(w, upper) && lower.number <= upper.number;
      while number < upper.number + 1
        invariant WalkedOn(K, rpc, node, lower, path, parent) && parent.number == number - 1
        invariant honest ==> OnChain(w, parent) && number <= upper.number + 1
        decreases upper.number + 1 - number
      {
        var step := Child(node, parent, w);
        if step.None? {
          return None;
        }
        WalkedOnAppend(K, rpc, node, lower, path, parent, step.value);
        path := path + [step.value];
        parent := step.value.block;
        number := number + 1;
      }
      if parent != upper {
        return None;
      }
      return Some(path);
    }

    /** The captured boundaries of one validator. */
    method CheckOne(cs: seq<Capture>, v: nat, ghost w: World) returns (ok: bool)
      requires v < |cs|
      modifies this`calls
      ensures ok ==> Stands(K, rpc, cs[v], v)
      ensures Faithful(K, rpc, w) && AllHonest(K, w, cs) ==> ok
    {
      if Faithful(K, rpc, w) && AllHonest(K, w, cs) { HonestIsServed(K, rpc, w, cs, v); }
      ok := CheckCapture(v, cs[v], EntryAt(w, cs[v].start.number), EntryAt(w, cs[v].end.number));
      if ok { SaysStands(K, rpc, cs[v], v); }
    }

    /** The captured boundaries of all validators. */
    method CheckCaptures(cs: seq<Capture>, ghost w: World) returns (ok: bool)
      modifies this`calls
      ensures ok ==> StandTo(K, rpc, cs, |cs|)
      ensures Faithful(K, rpc, w) && AllHonest(K, w, cs) ==> ok
    {
      ghost var honest := Faithful(K, rpc, w) && AllHonest(K, w, cs);
      ok := true;
      var v := 0;
      while ok && v < |cs|
        invariant v <= |cs| && (ok ==> StandTo(K, rpc, cs, v))
        invariant honest ==> ok
        decreases |cs| - v
      {
        ok := CheckOne(cs, v, w);
        v := v + 1;
      }
    }

    /** One validator has this very block at its height. */
    method Has(node: nat, b: Block, ghost w: World) returns (ok: bool)
      modifies this`calls
      ensures ok ==> GivesBlock(K, rpc, node, b)
      ensures Faithful(K, rpc, w) && OnChain(w, b) ==> ok
    {
      if Faithful(K, rpc, w) && OnChain(w, b) { CoveredIsServed(K, rpc, w, b.number); }
      var reply := At(node, b.number, true, EntryAt(w, b.number));
      ok := reply == Some(b);
      if ok { BlockGiven(K, rpc, node, b); }
    }

    method HasBoth(node: nat, a: Block, b: Block, ghost w: World) returns (ok: bool)
      modifies this`calls
      ensures ok ==> GivesBoth(K, rpc, node, a, b)
      ensures Faithful(K, rpc, w) && OnChain(w, a) && OnChain(w, b) ==> ok
    {
      ok := Has(node, a, w);
      if ok {
        ok := Has(node, b, w);
      }
    }

    /** Every validator reports the same two ends of the common interval. */
    method CheckEnds(nodes: nat, anchor: Block, last: Block, ghost w: World) returns (ok: bool)
      modifies this`calls
      ensures ok ==> EndsShared(K, rpc, nodes, anchor, last)
      ensures Faithful(K, rpc, w) && OnChain(w, anchor) && OnChain(w, last) ==> ok
    {
      for v := 0 to nodes
        invariant EndsShared(K, rpc, v, anchor, last)
      {
        ok := HasBoth(v, anchor, last, w);
        if !ok {
          return;
        }
      }
      return true;
    }

    /** The ancestry walks of one validator. */
    method WalkBoth(c: Capture, v: nat, anchor: Block, last: Block, ghost w: World)
      returns (r: Option<(seq<Step>, seq<Step>)>)
      modifies this`calls
      ensures r.Some? ==> Walks(K, rpc, c, v, anchor, last, r.value.0, r.value.1)
      ensures Faithful(K, rpc, w) && OnChain(w, c.start) && OnChain(w, c.end) && Between(w, c, anchor, last) ==> r.Some?
    {
      var lower := Walk(v, c.start, anchor, w);
      if lower.None? {
        return None;
      }
      var upper := Walk(v, last, c.end, w);
      if upper.None? {
        return None;
      }
      return Some((lower.value, upper.value));
    }

    /** The ancestry walks of all validators. */
    method WalkAll(cs: seq<Capture>, anchor: Block, last: Block, ghost w: World)
      returns (r: Option<(seq<seq<Step>>, seq<seq<Step>>)>)
      modifies this`calls
      ensures r.Some? ==> |r.value.0| == |r.value.1| == |cs|
      ensures r.Some? ==> WalksTo(K, rpc, cs, anchor, last, r.value.0, r.value.1, |cs|)
      ensures Faithful(K, rpc, w) && AllHonest(K, w, cs) && (forall c :: c in cs ==> Between(w, c, anchor, last))
              ==> r.Some?
    {
      var below: seq<seq<Step>>, above: seq<seq<Step>> := [], [];
      for v := 0 to |cs|
        invariant |below| == |above| == v
        invariant WalksTo(K, rpc, cs, anchor, last, below, above, v)
      {
        if AllHonest(K, w, cs) { EachHonest(K, w, cs, |cs|, v); }
        var walks := WalkBoth(cs[v], v, anchor, last, w);
        if walks.None? {
          return None;
        }
        WalksAppend(K, rpc, cs, anchor, last, below, above, v, walks.value.0, walks.value.1);
        below, above := below + [walks.value.0], above + [walks.value.1];
      }
      return Some((below, above));
    }

    /** `sum` over the records. */
    method Totals(rs: seq<Record>) returns (count: nat, successful: nat)
      ensures count == SumTransactions(rs) && successful == SumSuccessful(rs)
    {
      count, successful := 0, 0;
      for i := 0 to |rs|
        invariant count == SumTransactions(rs[..i]) && successful == SumSuccessful(rs[..i])
      {
        assert rs[..i + 1][..i] == rs[..i];
        count, successful := count + rs[i].block.transactions, successful + rs[i].successful;
      }
      assert rs[..|rs|] == rs;
    }

    /** The common anchor. */
    method Anchor(first: nat, ghost w: World) returns (b: Option<Block>)
      modifies this`calls
      ensures b.Some? ==> b.value.number == first
      ensures Faithful(K, rpc, w) && Covers(w, first) ==> b.Some? && OnChain(w, b.value)
    {
      if Faithful(K, rpc, w) && Covers(w, first) { CoveredIsServed(K, rpc, w, first); }
      b := At(0, first, true, EntryAt(w, first));
    }

    /** The anchor at `first`, and every height up to `last`. */
    method CountFrom(nodes: nat, first: nat, last: nat, ghost w: World) returns (r: Option<(Block, seq<Record>)>)
      requires nodes > 0 && first < last
      modifies this`calls
      ensures r.Some? ==>
                && r.value.0.number == first && |r.value.1| == last - first
                && CountedUp(r.value.0, r.value.1) && AllConfirmed(K, r.value.1)
                && AllBacked(K, rpc, nodes, r.value.1)
      ensures Faithful(K, rpc, w) && Covers(w, first) && Covers(w, last) ==>
                && r.Some? && OnChain(w, r.value.0) && OnChain(w, Last(r.value.1))
    {
      var anchor := Anchor(first, w);
      if anchor.None? {
        return None;
      }
      var records := CountInterval(nodes, anchor.value, last, w);
      return if records.None? then None else Some((anchor.value, records.value));
    }

    /** The counting half of `audit`: an anchor at `first`, then every height up to `last`, with
        both ends reported alike by every validator. */
    method CountCommon(nodes: nat, first: nat, last: nat, ghost w: World) returns (r: Option<(Block, seq<Record>)>)
      requires nodes > 0 && first < last
      modifies this`calls
      ensures r.Some? ==>
                && r.value.0.number == first && |r.value.1| == last - first
                && CountedUp(r.value.0, r.value.1) && AllConfirmed(K, r.value.1)
                && AllBacked(K, rpc, nodes, r.value.1)
                && EndsShared(K, rpc, nodes, r.value.0, Last(r.value.1))
      ensures Faithful(K, rpc, w) && Covers(w, first) && Covers(w, last) ==>
                && r.Some? && OnChain(w, r.value.0) && OnChain(w, Last(r.value.1))
    {
      r := CountFrom(nodes, first, last, w);
      if r.Some? {
        var ends := CheckEnds(nodes, r.value.0, Last(r.value.1), w);
        if !ends {
          return None;
        }
      }
    }

    /** Counting, walking and summing up. */
    method Collect(cs: seq<Capture>, first: nat, last: nat, ghost w: World) returns (r: Option<Report>)
      requires cs != [] && first < last
      modifies this`calls
      ensures r.Some? ==> r.value.first == first && r.value.last == last
      ensures r.Some? ==> Collected(K, cs, r.value) && Totalled(r.value)
      ensures r.Some? ==> Witnessed(K, rpc, cs, r.value)
      ensures Faithful(K, rpc, w) && AllHonest(K, w, cs) && Covers(w, first) && Covers(w, last)
              && (forall v :: 0 <= v < |cs| ==> cs[v].start.number <= first && last <= cs[v].end.number)
              ==> r.Some?
    {
      var common := CountCommon(|cs|, first, last, w);
      if common.None? {
        return None;
      }
      var anchor, records := common.value.0, common.value.1;
      RecordNumbers(anchor, records);
      var walks := WalkAll(cs, anchor, Last(records), w);
      if walks.None? {
        return None;
      }
      var count, successful := Totals(records);
      CountsPartition(K, records);
      var report := Report(first, last, anchor, records, walks.value.0, walks.value.1,
                           count, successful, count - successful);
      ReportCollected(K, rpc, cs, report);
      return Some(report);
    }

    /** `audit` from the recheck of the captured commits on.  Whatever the validators reply, an
        accepted report puts every validator's certified blocks and all counted blocks on one
        chain, and counts each height once.  And if they all answer from one chain, it is
        accepted exactly when there is common progress to count. */
    method Audit(cs: seq<Capture>, ghost w: World) returns (r: Option<Report>)
      requires cs != []
      modifies this`calls
      ensures r.Some? ==> GoodReport(K, cs, r.value) && Witnessed(K, rpc, cs, r.value) && StandTo(K, rpc, cs, |cs|)
      ensures Faithful(K, rpc, w) && AllHonest(K, w, cs) ==> (r.Some? <==> FirstHeight(cs) < LastHeight(cs))
    {
      var ok := CheckCaptures(cs, w);
      var first, last := FirstHeight(cs), LastHeight(cs);
      if !ok || last <= first {
        return None;
      }
      ghost var honest := Faithful(K, rpc, w) && AllHonest(K, w, cs);
      if honest { HeightsCovered(w, K, cs); }
      r := Collect(cs, first, last, w);
      if r.Some? {
        AllStand(K, rpc, cs);
        ReportIsGood(K, cs, r.value);
      }
    }
  }

  // ------------------------------------------------------------- one chain

  /** Below the anchor all chains are one: if two validators have blocks with different hashes at one
      height, then at some height above it, up to the anchor's, the hash function collides on the
      headers of their two chains. */
  lemma {:induction false} ForkBelow(K: Hasher, r: Report, c: Capture, v: nat, c': Capture, u: nat, h: nat)
    returns (k: nat)
    requires OneAncestry(K, c, r, v) && Reaches(c, r, v, h) && OneAncestry(K, c', r, u) && Reaches(c', r, u, h)
    requires h <= r.first && StepOn(c, r, v, h).block.hash != StepOn(c', r, u, h).block.hash
    ensures h < k <= r.first
    ensures Genuine(K, Collision(StepOn(c, r, v, k).header, StepOn(c', r, u, k).header))
    decreases r.first - h
  {
    assert h < r.first;
    var next := h + 1;
    if StepOn(c, r, v, next).block.hash != StepOn(c', r, u, next).block.hash {
      k := ForkBelow(K, r, c, v, c', u, next);
    } else {
      k := next;
      ForkHere(K, r, c, v, c', u, h, k);
    }
  }

  lemma {:induction false} ForkHere(K: Hasher, r: Report, c: Capture, v: nat, c': Capture, u: nat, h: nat, k: nat)
    requires OneAncestry(K, c, r, v) && Reaches(c, r, v, h) && OneAncestry(K, c', r, u) && Reaches(c', r, u, h)
    requires k == h + 1 && Reaches(c, r, v, k) && Reaches(c', r, u, k)
    requires StepOn(c, r, v, h).block.hash != StepOn(c', r, u, h).block.hash
    requires StepOn(c, r, v, k).block.hash == StepOn(c', r, u, k).block.hash
    ensures Genuine(K, Collision(StepOn(c, r, v, k).header, StepOn(c', r, u, k).header))
  {
    AncestryNext(K, c, r, v, h, k);
    AncestryNext(K, c', r, u, h, k);
    HeaderClash(K, StepOn(c, r, v, k), StepOn(c', r, u, k));
  }

  /** And so up to the last counted block, since in the interval all chains have the counted blocks. */
  lemma {:induction false} ForkUpTo(K: Hasher, r: Report, c: Capture, v: nat, c': Capture, u: nat, h: nat)
    returns (k: nat)
    requires OneAncestry(K, c, r, v) && Reaches(c, r, v, h) && OneAncestry(K, c', r, u) && Reaches(c', r, u, h)
    requires h <= r.last && StepOn(c, r, v, h).block.hash != StepOn(c', r, u, h).block.hash
    ensures h < k <= r.first
    ensures Genuine(K, Collision(StepOn(c, r, v, k).header, StepOn(c', r, u, k).header))
  {
    assert h <= r.first by {
      if r.first < h { IntervalShared(K, r, c, v, c', u, h); }
    }
    k := ForkBelow(K, r, c, v, c', u, h);
  }

  /** In the interval the validators have the same blocks. */
  lemma {:induction false} IntervalShared(K: Hasher, r: Report, c: Capture, v: nat, c': Capture, u: nat, h: nat)
    requires OneAncestry(K, c, r, v) && OneAncestry(K, c', r, u) && r.first <= h <= r.last
    ensures Reaches(c, r, v, h) && Reaches(c', r, u, h)
    ensures StepOn(c, r, v, h).block == StepOn(c', r, u, h).block
  {
  }

  lemma {:induction false} GivenAt(K: Hasher, rpc: Rpc, node: nat, path: seq<Step>, i: nat)
    requires i < |path| && AllGiven(K, rpc, node, path)
    ensures Gives(K, rpc, node, path[i])
  {
    if i < |path| - 1 { GivenAt(K, rpc, node, path[..|path| - 1], i); }
  }

  /** What lies between a validator's start block and the anchor, that validator gave. */
  lemma {:induction false} BelowGiven(K: Hasher, rpc: Rpc, c: Capture, r: Report, v: nat, k: nat)
    requires OneAncestry(K, c, r, v) && WalkedOn(K, rpc, v, c.start, r.below[v], r.anchor)
    requires c.start.number < k <= r.first
    ensures Gives(K, rpc, v, StepOn(c, r, v, k)) && StepOn(c, r, v, k).block.number == k
  {
    assert AllGiven(K, rpc, v, r.below[v]) by { WalkedIsLinked(K, rpc, v, c.start, r.below[v], r.anchor); }
    GivenAt(K, rpc, v, r.below[v], k - c.start.number - 1);
    AncestryAt(K, c, r, v, k);
  }

  lemma {:induction false} WalkedBelow(K: Hasher, rpc: Rpc, cs: seq<Capture>, r: Report, v: nat)
    requires cs != [] && GoodReport(K, cs, r) && Witnessed(K, rpc, cs, r) && v < |cs|
    ensures OneAncestry(K, cs[v], r, v) && WalkedOn(K, rpc, v, cs[v].start, r.below[v], r.anchor)
  {
    WalksAt(K, rpc, cs, r.anchor, Last(r.records), r.below, r.above, |cs|, v);
  }

  /** So, in an accepted report, a fork up to the last counted block takes two colliding headers, for
      one height, that the two validators themselves gave. */
  lemma {:induction false} ForkExposed(K: Hasher, rpc: Rpc, cs: seq<Capture>, r: Report, v: nat, u: nat, h: nat)
    returns (x: Step, y: Step)
    requires cs != [] && GoodReport(K, cs, r) && Witnessed(K, rpc, cs, r) && v < |cs| && u < |cs| && h <= r.last
    requires Reaches(cs[v], r, v, h) && Reaches(cs[u], r, u, h)
    requires StepOn(cs[v], r, v, h).block.hash != StepOn(cs[u], r, u, h).block.hash
    ensures Gives(K, rpc, v, x) && Gives(K, rpc, u, y) && h < x.block.number == y.block.number <= r.first
    ensures Genuine(K, Collision(x.header, y.header))
  {
    WalkedBelow(K, rpc, cs, r, v);
    WalkedBelow(K, rpc, cs, r, u);
    var k := ForkUpTo(K, r, cs[v], v, cs[u], u, h);
    BelowGiven(K, rpc, cs[v], r, v, k);
    BelowGiven(K, rpc, cs[u], r, u, k);
    x, y := StepOn(cs[v], r, v, k), StepOn(cs[u], r, u, k);
  }

  // ----------------------------------------------------------------- two audits

  ghost predicate SameCounts(x: Record, y: Record) {
    x.block.transactions == y.block.transactions && x.successful == y.successful && x.failed == y.failed
  }

  /** The record's counts are those of these receipts. */
  ghost predicate ComesFrom(K: Hasher, r: Record, raw: RawBlock, rs: seq<RpcReceipt>) {
    && BlockOf(raw) == r.block && Accepted(K, rs, RefOf(raw))
    && r.successful == CountStatus(rs, |rs|, 1) && r.failed == CountStatus(rs, |rs|, 0)
  }

  /** Records of two blocks with one receipts root count alike, or the streams of the receipts that
      they were counted from collide. */
  lemma {:induction false} DifferentCounts(
    K: Hasher, x: Record, a: RawBlock, rs: seq<RpcReceipt>, y: Record, b: RawBlock, ss: seq<RpcReceipt>)
    requires ComesFrom(K, x, a, rs) && ComesFrom(K, y, b, ss)
    requires x.block.receiptsRoot == y.block.receiptsRoot && !SameCounts(x, y)
    ensures StreamTo(rs, |rs|).Some? && StreamTo(ss, |ss|).Some?
    ensures Genuine(K, Collision(StreamTo(rs, |rs|).value, StreamTo(ss, |ss|).value))
  {
    assert CleanAll(rs) != CleanAll(ss) by {
      if CleanAll(rs) == CleanAll(ss) {
        SameLength(rs, ss);
        SameStatuses(rs, RefOf(a), ss, RefOf(b), |rs|, 0);
        SameStatuses(rs, RefOf(a), ss, RefOf(b), |rs|, 1);
      }
    }
    DifferentReceipts(K, rs, RefOf(a), ss, RefOf(b));
  }

  lemma {:induction false} BackedAt(K: Hasher, rpc: Rpc, nodes: nat, rs: seq<Record>, i: nat)
    requires i < |rs| && AllBacked(K, rpc, nodes, rs)
    ensures Backed(K, rpc, nodes, rs[i])
  {
    if i < |rs| - 1 { BackedAt(K, rpc, nodes, rs[..|rs| - 1], i); }
  }

  lemma {:induction false} VouchedReceipts(K: Hasher, rpc: Rpc, nodes: nat, raw: RawBlock, s: Receipts.Summary, v: nat)
    returns (rs: seq<RpcReceipt>)
    requires AllVouch(K, rpc, nodes, raw, s) && v < nodes
    ensures Sums(K, rpc, v, raw, rs, s)
  {
    assert Vouches(K, rpc, v, raw, s) by { AllBelowAt(nodes, (v: nat) => Vouches(K, rpc, v, raw, s), v); }
    var header: seq<byte>;
    header, rs :| VouchesWith(K, rpc, v, raw, s, header, rs);
  }

  /** Every validator gave receipts that the record was counted from. */
  lemma {:induction false} BackedReceipts(K: Hasher, rpc: Rpc, nodes: nat, r: Record, v: nat)
    returns (raw: RawBlock, rs: seq<RpcReceipt>)
    requires Backed(K, rpc, nodes, r) && v < nodes
    ensures SaysReceipts(rpc, v, r.block.hash, rs) && ComesFrom(K, r, raw, rs)
  {
    var s: Receipts.Summary, last: nat;
    raw, s, last :| BackedBy(K, rpc, nodes, r, raw, s, last);
    rs := VouchedReceipts(K, rpc, nodes, raw, s, v);
  }

  datatype Evidence = Headers | Streams(rs: seq<RpcReceipt>, ss: seq<RpcReceipt>)

  /** The break is between the headers of the two records, or between the streams of receipts that
      the two validators gave for their blocks. */
  ghost predicate Clash(rpc: Rpc, v: nat, x: Record, rpc': Rpc, u: nat, y: Record, br: Break) {
    exists w: Evidence :: ClashOn(rpc, v, x, rpc', u, y, br, w)
  }

  ghost predicate ClashOn(rpc: Rpc, v: nat, x: Record, rpc': Rpc, u: nat, y: Record, br: Break, w: Evidence) {
    match w
    case Headers => br == Collision(x.header, y.header)
    case Streams(rs, ss) =>
      && SaysReceipts(rpc, v, x.block.hash, rs) && SaysReceipts(rpc', u, y.block.hash, ss)
      && br.Collision? && StreamTo(rs, |rs|) == Some(br.x) && StreamTo(ss, |ss|) == Some(br.y)
  }

  /** Records of one block hash count alike, or there is such a break. */
  lemma {:induction false} DifferentRecords(
    K: Hasher, rpc: Rpc, nodes: nat, v: nat, x: Record, rpc': Rpc, nodes': nat, u: nat, y: Record) returns (br: Break)
    requires Headed(K, StepOf(x)) && Backed(K, rpc, nodes, x) && v < nodes
    requires Headed(K, StepOf(y)) && Backed(K, rpc', nodes', y) && u < nodes'
    requires x.block.hash == y.block.hash && !SameCounts(x, y)
    ensures Genuine(K, br) && Clash(rpc, v, x, rpc', u, y, br)
  {
    if x.block.receiptsRoot != y.block.receiptsRoot {
      HeaderClash(K, StepOf(x), StepOf(y));
      br := Collision(x.header, y.header);
      assert ClashOn(rpc, v, x, rpc', u, y, br, Headers);
    } else {
      var a, rs := BackedReceipts(K, rpc, nodes, x, v);
      var b, ss := BackedReceipts(K, rpc', nodes', y, u);
      DifferentCounts(K, x, a, rs, y, b, ss);
      br := Collision(StreamTo(rs, |rs|).value, StreamTo(ss, |ss|).value);
      assert ClashOn(rpc, v, x, rpc', u, y, br, Streams(rs, ss));
    }
  }

  /** The first `n` records are a hash-linked chain with its headers. */
  ghost predicate ChainedTo(K: Hasher, rs: seq<Record>, n: nat)
    requires n <= |rs|
  {
    n == 0 || (&& ChainedTo(K, rs, n - 1) && Headed(K, StepOf(rs[n - 1]))
               && (n > 1 ==> Follows(rs[n - 2].block, rs[n - 1].block)))
  }

  ghost predicate Chained(K: Hasher, rs: seq<Record>) {
    ChainedTo(K, rs, |rs|)
  }

  lemma {:induction false} ChainedAt(K: Hasher, rs: seq<Record>, n: nat, i: nat)
    requires i < n <= |rs| && ChainedTo(K, rs, n)
    ensures Headed(K, StepOf(rs[i])) && (i > 0 ==> Follows(rs[i - 1].block, rs[i].block))
  {
    if i < n - 1 { ChainedAt(K, rs, n - 1, i); }
  }

  lemma {:induction false} ChainedNumber(K: Hasher, rs: seq<Record>, i: nat)
    requires i < |rs| && Chained(K, rs)
    ensures rs[i].block.number == rs[0].block.number + i
  {
    ChainedAt(K, rs, |rs|, i);
    if i > 0 { ChainedNumber(K, rs, i - 1); }
  }

  /** The counted blocks of a report are such a chain. */
  lemma {:induction false} CountedChain(K: Hasher, c: Capture, r: Report, v: nat, n: nat)
    requires OneAncestry(K, c, r, v) && n <= |r.records|
    ensures ChainedTo(K, r.records, n)
  {
    if n > 0 {
      CountedChain(K, c, r, v, n - 1);
      AncestryNext(K, c, r, v, r.first + n - 1, r.first + n);
    }
  }

  ghost predicate DifferentlySummed(rs: seq<Record>, ss: seq<Record>) {
    || SumTransactions(rs) != SumTransactions(ss) || SumSuccessful(rs) != SumSuccessful(ss)
    || SumFailed(rs) != SumFailed(ss)
  }

  function FirstNumber(rs: seq<Record>): nat
    requires rs != []
  {
    rs[0].block.number
  }

  /** Where sums differ, some record does. */
  lemma {:induction false} DifferentTurn(rs: seq<Record>, ss: seq<Record>) returns (i: nat)
    requires |rs| == |ss| && DifferentlySummed(rs, ss)
    ensures i < |rs| && !SameCounts(rs[i], ss[i])
  {
    i := |rs| - 1;
    if SameCounts(rs[i], ss[i]) {
      i := DifferentTurn(rs[..i], ss[..i]);
    }
  }

  /** Two such chains of one length that part at `i` and end in one hash collide on the headers of two
      records. */
  lemma {:induction false} Divergence(K: Hasher, rs: seq<Record>, ss: seq<Record>, i: nat) returns (k: nat)
    requires Chained(K, rs) && Chained(K, ss) && i < |rs| == |ss|
    requires Last(rs).hash == Last(ss).hash && rs[i].block.hash != ss[i].block.hash
    ensures i < k < |rs| && Genuine(K, Collision(rs[k].header, ss[k].header))
    decreases |rs| - i
  {
    var next := i + 1;
    if rs[next].block.hash != ss[next].block.hash {
      k := Divergence(K, rs, ss, next);
    } else {
      k := next;
      PartHere(K, rs, ss, i, k);
    }
  }

  lemma {:induction false} PartHere(K: Hasher, rs: seq<Record>, ss: seq<Record>, i: nat, k: nat)
    requires Chained(K, rs) && Chained(K, ss) && k == i + 1 < |rs| == |ss|
    requires rs[i].block.hash != ss[i].block.hash && rs[k].block.hash == ss[k].block.hash
    ensures Genuine(K, Collision(rs[k].header, ss[k].header))
  {
    ChainedAt(K, rs, |rs|, k);
    ChainedAt(K, ss, |ss|, k);
    HeaderClash(K, StepOf(rs[k]), StepOf(ss[k]));
  }

  /** What the records of an accepted report are. */
  ghost predicate CountedBy(K: Hasher, rpc: Rpc, nodes: nat, rs: seq<Record>) {
    Chained(K, rs) && AllBacked(K, rpc, nodes, rs)
  }

  /** Two such chains that end in one hash differ in a record only if there is such a break. */
  lemma {:induction false} DifferentAt(
    K: Hasher, rpc: Rpc, nodes: nat, v: nat, rs: seq<Record>, rpc': Rpc, nodes': nat, u: nat, ss: seq<Record>, i: nat)
    returns (br: Break, k: nat)
    requires i < |rs| == |ss| && Last(rs).hash == Last(ss).hash && !SameCounts(rs[i], ss[i])
    requires CountedBy(K, rpc, nodes, rs) && v < nodes && CountedBy(K, rpc', nodes', ss) && u < nodes'
    ensures k < |rs| && Genuine(K, br) && Clash(rpc, v, rs[k], rpc', u, ss[k], br)
  {
    if rs[i].block.hash != ss[i].block.hash {
      k := Divergence(K, rs, ss, i);
      br := Collision(rs[k].header, ss[k].header);
      assert ClashOn(rpc, v, rs[k], rpc', u, ss[k], br, Headers);
    } else {
      k := i;
      ChainedAt(K, rs, |rs|, i);
      ChainedAt(K, ss, |ss|, i);
      BackedAt(K, rpc, nodes, rs, i);
      BackedAt(K, rpc', nodes', ss, i);
      br := DifferentRecords(K, rpc, nodes, v, rs[i], rpc', nodes', u, ss[i]);
    }
  }

  /** Two accepted reports with one first height and one last counted hash count alike, whatever the
      validators of either replied.  Otherwise the hash function collides on the headers of two of
      their records, or on the streams of receipts that any chosen validator of the one and any of
      the other gave for a block. */
  lemma {:induction false} DifferentTotals(
    K: Hasher, rpc: Rpc, cs: seq<Capture>, r: Report, v: nat, rpc': Rpc, cs': seq<Capture>, r': Report, u: nat)
    returns (br: Break, i: nat, j: nat)
    requires cs != [] && GoodReport(K, cs, r) && Witnessed(K, rpc, cs, r) && v < |cs|
    requires cs' != [] && GoodReport(K, cs', r') && Witnessed(K, rpc', cs', r') && u < |cs'|
    requires r.first == r'.first && Last(r.records).hash == Last(r'.records).hash
    requires r.committed != r'.committed || r.successful != r'.successful || r.failed != r'.failed
    ensures i < |r.records| && j < |r'.records|
    ensures Genuine(K, br) && Clash(rpc, v, r.records[i], rpc', u, r'.records[j], br)
  {
    assert Tallied(K, rpc, |cs|, r) by { ReportTallied(K, rpc, cs, r); }
    assert Tallied(K, rpc', |cs'|, r') by { ReportTallied(K, rpc', cs', r'); }
    br, i, j := DifferentTallies(K, rpc, |cs|, v, r, rpc', |cs'|, u, r');
  }

  /** What the totals of an accepted report are made of. */
  ghost predicate Tallied(K: Hasher, rpc: Rpc, nodes: nat, r: Report) {
    exists rs: seq<Record> :: TalliedFrom(K, rpc, nodes, r, rs)
  }

  ghost predicate TalliedFrom(K: Hasher, rpc: Rpc, nodes: nat, r: Report, rs: seq<Record>) {
    && rs == r.records && rs != [] && CountedBy(K, rpc, nodes, rs) && FirstNumber(rs) == r.first + 1
    && r.committed == SumTransactions(rs) && r.successful == SumSuccessful(rs) && r.failed == SumFailed(rs)
  }

  lemma {:induction false} ReportTallied(K: Hasher, rpc: Rpc, cs: seq<Capture>, r: Report)
    requires cs != [] && GoodReport(K, cs, r) && Witnessed(K, rpc, cs, r)
    ensures Tallied(K, rpc, |cs|, r)
  {
    assert CountedOnce(K, r);
    assert FirstNumber(r.records) == r.first + 1;
    assert Chained(K, r.records) by { CountedChain(K, cs[0], r, 0, |r.records|); }
    assert TalliedFrom(K, rpc, |cs|, r, r.records);
  }

  lemma {:induction false} DifferentTallies(
    K: Hasher, rpc: Rpc, nodes: nat, v: nat, r: Report, rpc': Rpc, nodes': nat, u: nat, r': Report)
    returns (br: Break, i: nat, j: nat)
    requires Tallied(K, rpc, nodes, r) && v < nodes && Tallied(K, rpc', nodes', r') && u < nodes'
    requires r.records != [] && r'.records != [] && r.first == r'.first
    requires Last(r.records).hash == Last(r'.records).hash
    requires r.committed != r'.committed || r.successful != r'.successful || r.failed != r'.failed
    ensures i < |r.records| && j < |r'.records|
    ensures Genuine(K, br) && Clash(rpc, v, r.records[i], rpc', u, r'.records[j], br)
  {
    var rs: seq<Record> :| TalliedFrom(K, rpc, nodes, r, rs);
    assert FirstNumber(r.records) == r.first + 1;
    var ss: seq<Record> :| TalliedFrom(K, rpc', nodes', r', ss);
    assert FirstNumber(r'.records) == r'.first + 1;
    br, i, j := DifferentSums(K, rpc, nodes, v, r.records, rpc', nodes', u, r'.records);
  }

  /** Such chains of different lengths from one height cannot end in one hash, or the headers of the
      two ends collide. */
  lemma {:induction false} UnequalLengths(K: Hasher, rs: seq<Record>, ss: seq<Record>)
    requires rs != [] && Chained(K, rs) && ss != [] && Chained(K, ss) && |rs| != |ss|
    requires FirstNumber(rs) == FirstNumber(ss) && Last(rs).hash == Last(ss).hash
    ensures Genuine(K, Collision(rs[|rs| - 1].header, ss[|ss| - 1].header))
  {
    var i, j := |rs| - 1, |ss| - 1;
    ChainedNumber(K, rs, i);
    ChainedNumber(K, ss, j);
    ChainedAt(K, rs, |rs|, i);
    ChainedAt(K, ss, |ss|, j);
    HeaderClash(K, StepOf(rs[i]), StepOf(ss[j]));
  }

  lemma {:induction false} UnequalEnds(
    K: Hasher, rpc: Rpc, v: nat, rs: seq<Record>, rpc': Rpc, u: nat, ss: seq<Record>)
    returns (br: Break, i: nat, j: nat)
    requires rs != [] && Chained(K, rs) && ss != [] && Chained(K, ss) && |rs| != |ss|
    requires FirstNumber(rs) == FirstNumber(ss) && Last(rs).hash == Last(ss).hash
    ensures i < |rs| && j < |ss| && Genuine(K, br) && Clash(rpc, v, rs[i], rpc', u, ss[j], br)
  {
    UnequalLengths(K, rs, ss);
    i, j := |rs| - 1, |ss| - 1;
    br := Collision(rs[i].header, ss[j].header);
    assert ClashOn(rpc, v, rs[i], rpc', u, ss[j], br, Headers);
  }

  lemma {:induction false} EqualLengths(
    K: Hasher, rpc: Rpc, nodes: nat, v: nat, rs: seq<Record>, rpc': Rpc, nodes': nat, u: nat, ss: seq<Record>)
    returns (br: Break, k: nat)
    requires rs != [] && CountedBy(K, rpc, nodes, rs) && v < nodes
    requires ss != [] && CountedBy(K, rpc', nodes', ss) && u < nodes'
    requires |rs| == |ss| && Last(rs).hash == Last(ss).hash && DifferentlySummed(rs, ss)
    ensures k < |rs| && Genuine(K, br) && Clash(rpc, v, rs[k], rpc', u, ss[k], br)
  {
    var n := DifferentTurn(rs, ss);
    br, k := DifferentAt(K, rpc, nodes, v, rs, rpc', nodes', u, ss, n);
  }

  lemma {:induction false} DifferentSums(
    K: Hasher, rpc: Rpc, nodes: nat, v: nat, rs: seq<Record>, rpc': Rpc, nodes': nat, u: nat, ss: seq<Record>)
    returns (br: Break, i: nat, j: nat)
    requires rs != [] && CountedBy(K, rpc, nodes, rs) && v < nodes
    requires ss != [] && CountedBy(K, rpc', nodes', ss) && u < nodes'
    requires FirstNumber(rs) == FirstNumber(ss) && Last(rs).hash == Last(ss).hash
    requires DifferentlySummed(rs, ss)
    ensures i < |rs| && j < |ss| && Genuine(K, br) && Clash(rpc, v, rs[i], rpc', u, ss[j], br)
  {
    if |rs| != |ss| {
      br, i, j := UnequalEnds(K, rpc, v, rs, rpc', u, ss);
    } else {
      br, i := EqualLengths(K, rpc, nodes, v, rs, rpc', nodes', u, ss);
      j := i;
    }
  }
}
