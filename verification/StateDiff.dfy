/** The state changes of one block, decoded into updates of the sharded tree.

    How addresses and storage slots become tree keys is a parameter. */
module StateDiff {
  import opened Hashing
  import opened Sbmt
  import opened ShardedSbmt

  const ACCOUNT_VALUE_LEN := 72

  /** keccak256 of the empty string. */
  const EMPTY_CODE_HASH: Hash := [
    0xc5, 0xd2, 0x46, 0x01, 0x86, 0xf7, 0x23, 0x3c, 0x92, 0x7e, 0x7d, 0xb2, 0xdc, 0xc7, 0x03, 0xc0,
    0xe5, 0x00, 0xb6, 0x53, 0xca, 0x82, 0x27, 0x3b, 0x7b, 0xfa, 0xd8, 0x04, 0x5d, 0x85, 0xa4, 0x70]

  type Address = seq<byte>

  /** A 256-bit word, big-endian. */
  type Word = Hash

  const ZERO: Word := EMPTY_HASH

  /** A 64-bit nonce, big-endian. */
  type Nonce = s: seq<byte> | |s| == 8 witness seq(8, _ => 0)

  const NO_NONCE: Nonce := [0, 0, 0, 0, 0, 0, 0, 0]

  datatype ChangeType = Created | Modified | Destroyed

  /** What a block did to one account; only the new values matter here. */
  datatype AccountDiff = AccountDiff(
    change: ChangeType,
    balance: Option<Word>,
    nonce: Option<Nonce>,
    code: Option<Option<Hash>>,
    storage: seq<(Word, Word)>)

  /** In address order. */
  type Diff = seq<(Address, AccountDiff)>

  datatype Keys = Keys(account: Address -> Hash, storage: (Address, Word) -> Hash)

  // ----------------------------------------------------------- account leaves

  /** `encode_account_value`. */
  function EncodeAccount(balance: Word, nonce: Nonce, code: Hash): seq<byte> {
    balance + nonce + code
  }

  /** `decode_code_hash_checked`. */
  function CodeHash(value: seq<byte>): Option<Hash> {
    if |value| >= ACCOUNT_VALUE_LEN then Some(value[40..72]) else None
  }

  lemma {:induction false} CodeHashInverse(balance: Word, nonce: Nonce, code: Hash)
    ensures CodeHash(EncodeAccount(balance, nonce, code)) == Some(code)
  {
    assert EncodeAccount(balance, nonce, code)[40..72] == code;
  }

  function LeafOf(m: Store, key: Hash): Option<seq<byte>> {
    if key in m then Some(m[key]) else None
  }

  /** The code hash that the new leaf gets, if there is one to get. */
  function CodeFor(leaf: Option<seq<byte>>, d: AccountDiff): Option<Hash> {
    if d.code.Some? then Some(if d.code.value.Some? then d.code.value.value else EMPTY_CODE_HASH)
    else if leaf.Some? then CodeHash(leaf.value)
    else if d.change.Created? then Some(EMPTY_CODE_HASH)
    else None
  }

  function NewLeaf(d: AccountDiff, code: Hash): seq<byte> {
    EncodeAccount(if d.balance.Some? then d.balance.value else ZERO,
                  if d.nonce.Some? then d.nonce.value else NO_NONCE, code)
  }

  // ------------------------------------------------------------------ updates

  function SlotEntry(keys: Keys, address: Address, d: AccountDiff, slot: (Word, Word)): Entry {
    (keys.storage(address, slot.0), if d.change.Destroyed? || slot.1 == ZERO then None else Some(slot.1))
  }

  ghost function SlotEntries(keys: Keys, address: Address, d: AccountDiff, n: nat): (es: seq<Entry>)
    requires n <= |d.storage|
    ensures forall i :: 0 <= i < n ==> SlotEntry(keys, address, d, d.storage[i]) in es
  {
    if n == 0 then [] else SlotEntries(keys, address, d, n - 1) + [SlotEntry(keys, address, d, d.storage[n - 1])]
  }

  /** The updates of one account, given its present leaf. */
  ghost function AccountEntries(keys: Keys, m: Store, a: (Address, AccountDiff)): Option<seq<Entry>> {
    var key := keys.account(a.0);
    var slots := SlotEntries(keys, a.0, a.1, |a.1.storage|);
    if a.1.change.Destroyed? then Some([(key, None)] + slots)
    else
      var code := CodeFor(LeafOf(m, key), a.1);
      if code.None? then None else Some([(key, Some(NewLeaf(a.1, code.value)))] + slots)
  }

  /** The updates of the first `n` accounts, or nothing once a code hash is missing. */
  ghost function DiffEntries(keys: Keys, m: Store, diff: Diff, n: nat): Option<seq<Entry>>
    requires n <= |diff|
  {
    if n == 0 then Some([])
    else
      var init, last := DiffEntries(keys, m, diff, n - 1), AccountEntries(keys, m, diff[n - 1]);
      if init.None? || last.None? then None else Some(init.value + last.value)
  }

  /** The account should have a leaf with a code hash, and has none: it is modified without a change
      of code but absent, or its leaf is cut short. */
  predicate Misses(keys: Keys, m: Store, a: (Address, AccountDiff)) {
    var leaf := LeafOf(m, keys.account(a.0));
    && !a.1.change.Destroyed? && a.1.code.None?
    && if leaf.Some? then |leaf.value| < ACCOUNT_VALUE_LEN else a.1.change.Modified?
  }

  /** Exactly then the whole diff is refused. */
  lemma {:induction false} RefusedExactly(keys: Keys, m: Store, diff: Diff, n: nat)
    requires n <= |diff|
    ensures DiffEntries(keys, m, diff, n).None? <==> exists i :: 0 <= i < n && Misses(keys, m, diff[i])
  {
    if n > 0 { RefusedExactly(keys, m, diff, n - 1); }
  }

  /** `prepare`. */
  method Prepare(t: ShardedSbmt, keys: Keys, diff: Diff) returns (r: Option<seq<Entry>>)
    requires t.Valid()
    ensures r == DiffEntries(keys, t.store, diff, |diff|)
  {
    var es := [];
    for n := 0 to |diff|
      invariant DiffEntries(keys, t.store, diff, n) == Some(es)
    {
      var one := PrepareAccount(t, keys, diff[n].0, diff[n].1);
      if one.None? {
        RefusedExactly(keys, t.store, diff, n + 1);
        RefusedExactly(keys, t.store, diff, |diff|);
        return None;
      }
      es := es + one.value;
    }
    return Some(es);
  }

  method PrepareAccount(t: ShardedSbmt, keys: Keys, address: Address, d: AccountDiff) returns (r: Option<seq<Entry>>)
    requires t.Valid()
    ensures r == AccountEntries(keys, t.store, (address, d))
  {
    var key := keys.account(address);
    var es: seq<Entry> := [(key, None)];
    if !d.change.Destroyed? {
      var leaf := t.Get(key);
      var code := CodeFor(leaf, d);
      if code.None? {
        return None;
      }
      es := [(key, Some(NewLeaf(d, code.value)))];
    }
    ghost var first := es;
    for j := 0 to |d.storage|
      invariant es == first + SlotEntries(keys, address, d, j)
    {
      es := es + [SlotEntry(keys, address, d, d.storage[j])];
    }
    return Some(es);
  }

  /** `apply_diff`: refused as a whole, with nothing changed, exactly if some account's code hash is
      missing; otherwise one version on, with all updates of the diff applied. */
  method ApplyDiff(t: ShardedSbmt, keys: Keys, diff: Diff) returns (r: Option<(nat, Hash)>)
    requires t.Valid()
    requires
      var es := DiffEntries(keys, t.store, diff, |diff|);
      es.Some? ==> t.Room(es.value)
    modifies t, t.shards
    ensures t.Valid() && t.shards == old(t.shards)
    ensures r.None? <==> exists i :: 0 <= i < |diff| && Misses(keys, old(t.store), diff[i])
    ensures r.None? ==> t.store == old(t.store) && t.version == old(t.version)
    ensures r.Some? ==>
              && DiffEntries(keys, old(t.store), diff, |diff|).Some?
              && t.store == PutAll(old(t.store), DiffEntries(keys, old(t.store), diff, |diff|).value)
              && t.version == old(t.version) + 1 && r.value == (t.version, StateRoot(t.H, t.store))
  {
    RefusedExactly(keys, t.store, diff, |diff|);
    var es := Prepare(t, keys, diff);
    if es.None? {
      return None;
    }
    var root := t.ApplyUpdates(es.value);
    return Some((t.version, root));
  }

  // ------------------------------------------------------------- consequences

  ghost function KeysOf(es: seq<Entry>): (ks: seq<Hash>)
    ensures |ks| == |es| && forall i :: 0 <= i < |es| ==> ks[i] == es[i].0
  {
    seq(|es|, i requires 0 <= i < |es| => es[i].0)
  }

  /** A key that is not updated keeps its value. */
  lemma {:induction false} OthersKept(m: Store, es: seq<Entry>, key: Hash)
    requires forall e :: e in es ==> e.0 != key
    ensures LeafOf(PutAll(m, es), key) == LeafOf(m, key)
  {
    if es != [] {
      var init, last := es[..|es| - 1], es[|es| - 1];
      assert last in es && forall e :: e in init ==> e in es;
      OthersKept(m, init, key);
    }
  }

  /** A key that is updated once gets that value. */
  lemma {:induction false} EntryWins(m: Store, es: seq<Entry>, e: Entry)
    requires e in es && NoRepeats(KeysOf(es))
    ensures LeafOf(PutAll(m, es), e.0) == e.1
  {
    var init, last := es[..|es| - 1], es[|es| - 1];
    if e != last {
      assert e in init;
      assert KeysOf(init) == KeysOf(es)[..|init|];
      EntryWins(m, init, e);
      var i :| 0 <= i < |init| && init[i] == e;
      assert KeysOf(es)[i] != KeysOf(es)[|init|];
    }
  }

  lemma {:induction false} EntriesIncluded(keys: Keys, m: Store, diff: Diff, n: nat, i: nat)
    requires i < n <= |diff| && DiffEntries(keys, m, diff, n).Some?
    ensures AccountEntries(keys, m, diff[i]).Some?
    ensures forall e :: e in AccountEntries(keys, m, diff[i]).value ==> e in DiffEntries(keys, m, diff, n).value
  {
    if i < n - 1 { EntriesIncluded(keys, m, diff, n - 1, i); }
  }

  /** The leaf that an account has after its diff, byte by byte: balance, nonce, and the code hash as
      changed, the empty one for a change to none or for a new account, or else the former one. */
  predicate LeafAfter(before: Option<seq<byte>>, d: AccountDiff, leaf: seq<byte>) {
    && |leaf| == 72
    && leaf[0..32] == (if d.balance.Some? then d.balance.value else seq(32, _ => 0))
    && leaf[32..40] == (if d.nonce.Some? then d.nonce.value else seq(8, _ => 0))
    && match d.code
       case Some(Some(hash)) => leaf[40..72] == hash
       case Some(None) => leaf[40..72] == EMPTY_CODE_HASH
       case None =>
         if before.Some? then |before.value| >= 72 && leaf[40..72] == before.value[40..72]
         else d.change.Created? && leaf[40..72] == EMPTY_CODE_HASH
  }

  lemma {:induction false} NewLeafIs(before: Option<seq<byte>>, d: AccountDiff)
    requires CodeFor(before, d).Some?
    ensures LeafAfter(before, d, NewLeaf(d, CodeFor(before, d).value))
  {
    var balance: Word := if d.balance.Some? then d.balance.value else ZERO;
    var nonce: Nonce := if d.nonce.Some? then d.nonce.value else NO_NONCE;
    var code := CodeFor(before, d).value;
    var leaf := balance + nonce + code;
    assert leaf[0..32] == balance && leaf[32..40] == nonce && leaf[40..72] == code;
    assert ZERO == seq(32, _ => 0) && NO_NONCE == seq(8, _ => 0);
  }

  /** What a diff does, as long as no two of its keys coincide: a destroyed account has no leaf, any
      other the one that its balance, nonce and code say; a slot has its new word, or nothing if that
      is zero or the account is gone. */
  lemma {:induction false} DiffApplied(keys: Keys, m: Store, diff: Diff, i: nat)
    requires i < |diff| && DiffEntries(keys, m, diff, |diff|).Some?
    requires NoRepeats(KeysOf(DiffEntries(keys, m, diff, |diff|).value))
    ensures
      var m' := PutAll(m, DiffEntries(keys, m, diff, |diff|).value);
      var (address, d) := diff[i];
      var before, after := LeafOf(m, keys.account(address)), LeafOf(m', keys.account(address));
      && (d.change.Destroyed? <==> after.None?)
      && (after.Some? ==>
            && LeafAfter(before, d, after.value)
            && (d.code.None? && before.Some? ==> CodeHash(after.value) == CodeHash(before.value)))
      && forall j :: 0 <= j < |d.storage| ==>
           LeafOf(m', keys.storage(address, d.storage[j].0)) ==
             if d.change.Destroyed? || d.storage[j].1 == ZERO then None else Some(d.storage[j].1)
  {
    var es := DiffEntries(keys, m, diff, |diff|).value;
    var (address, d) := diff[i];
    EntriesIncluded(keys, m, diff, |diff|, i);
    var own := AccountEntries(keys, m, diff[i]).value;
    assert own[0] in own;
    EntryWins(m, es, own[0]);
    if !d.change.Destroyed? {
      NewLeafIs(LeafOf(m, keys.account(address)), d);
    }
    forall j | 0 <= j < |d.storage|
      ensures
        var e := SlotEntry(keys, address, d, d.storage[j]);
        LeafOf(PutAll(m, es), e.0) == e.1
    {
      var e := SlotEntry(keys, address, d, d.storage[j]);
      assert e in SlotEntries(keys, address, d, |d.storage|);
      assert e in own;
      EntryWins(m, es, e);
    }
  }
}
