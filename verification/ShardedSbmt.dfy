/** Sixteen shard trees with their raw values: the state that produces combined roots and
    end-to-end proofs. */
module ShardedSbmt {
  import opened Hashing
  import opened MerkleTree
  import opened Arena
  import opened Sbmt
  import opened ShardTree
  import opened ShardedProof
  import Bmt = BmtProof

  type Store = map<Hash, seq<byte>>

  /** The part of the state that is routed to shard `i`. */
  ghost function Part(m: Store, i: nat): Store {
    map k | k in m && ShardIndex(k) == i :: m[k]
  }

  ghost function HashAll(H: Hasher, m: Store): map<Hash, Hash> {
    map k | k in m :: HashValue(H, m[k])
  }

  ghost predicate OneShard(m: Store, i: nat) {
    forall k :: k in m ==> ShardIndex(k) == i
  }

  lemma {:induction false} OneShardFits(H: Hasher, m: Store, i: nat, key: Hash)
    requires OneShard(m, i)
    ensures SharePrefix(HashAll(H, m), SHARD_BITS)
    ensures ShardIndex(key) == i ==> Fits(HashAll(H, m), key, SHARD_BITS)
  {
    forall a, b | a in m && b in m ensures AgreeOn(a, b, 0, SHARD_BITS) { SameShardSharesPrefix(a, b); }
    if ShardIndex(key) == i {
      forall a | a in m ensures AgreeOn(a, key, 0, SHARD_BITS) { SameShardSharesPrefix(a, key); }
    }
  }

  /** The tree of shard `i` for a given state. */
  ghost function TreeFor(H: Hasher, m: Store, i: nat): Tree {
    OneShardFits(H, Part(m, i), i, EMPTY_HASH);
    Canon(HashAll(H, Part(m, i)), SHARD_BITS)
  }

  ghost function TreesFor(H: Hasher, m: Store): (ts: seq<Tree>)
    ensures |ts| == SHARD_COUNT && forall i :: 0 <= i < SHARD_COUNT ==> ts[i] == TreeFor(H, m, i)
  {
    seq(SHARD_COUNT, i requires 0 <= i < SHARD_COUNT => TreeFor(H, m, i))
  }

  /** The combined root is a function of the state alone. */
  ghost function StateRoot(H: Hasher, m: Store): Hash {
    CombinedRoot(H, TreesFor(H, m))
  }

  /** The hashes of the values whose keys start with the four bits `i`. */
  ghost function Nibble(H: Hasher, m: Store, i: nat): map<Hash, Hash> {
    map k: Hash | k in m && k[0] / 16 == i :: H(m[k])
  }

  lemma {:induction false} NibbleIsPart(H: Hasher, m: Store, i: nat)
    ensures Nibble(H, m, i) == HashAll(H, Part(m, i)) && SharePrefix(Nibble(H, m, i), SHARD_BITS)
  {
    forall k: Hash ensures ShardIndex(k) == k[0] / 16 { NibbleBound(k[0]); }
    OneShardFits(H, Part(m, i), i, EMPTY_HASH);
  }

  /** The root of a state, as bytes to hash: sixteen shards by the first four bits of the key, and
      above them a tree of pairs. */
  ghost function StateRootOf(H: Hasher, m: Store): Hash {
    SixteenLeaves();
    MerkleRoot(H, seq(16, i requires 0 <= i < 16 => NibbleRoot(H, m, i)), 4)
  }

  ghost function NibbleRoot(H: Hasher, m: Store, i: nat): Hash {
    NibbleIsPart(H, m, i);
    RootOf(H, Nibble(H, m, i), 4)
  }

  lemma {:induction false} StateRootExactly(H: Hasher, m: Store)
    ensures StateRoot(H, m) == StateRootOf(H, m)
  {
    var roots, bytes := ShardRoots(H, TreesFor(H, m)), seq(16, i requires 0 <= i < 16 => NibbleRoot(H, m, i));
    forall i | 0 <= i < 16 ensures roots[i] == bytes[i] {
      NibbleIsPart(H, m, i);
      RootExactly(H, Nibble(H, m, i), 4);
    }
    assert roots == bytes;
  }

  /** The trees of a state hold exactly the state, each key in its shard. */
  lemma {:induction false} TreesForHold(H: Hasher, m: Store, key: Hash)
    ensures IsSharded(TreesFor(H, m))
    ensures Answer(TreesFor(H, m), key) == if key in m then Some(HashValue(H, m[key])) else None
  {
    forall i | 0 <= i < SHARD_COUNT
      ensures Placed(TreeFor(H, m, i), SHARD_BITS) && Contents(TreeFor(H, m, i)) == HashAll(H, Part(m, i))
    {
      OneShardFits(H, Part(m, i), i, EMPTY_HASH);
      CanonHolds(HashAll(H, Part(m, i)), SHARD_BITS);
    }
  }

  /** The inputs hashed for the root of a state: its values and all its trees. */
  ghost function StateHashed(H: Hasher, m: Store): set<seq<byte>> {
    m.Values + TreesHashed(H, TreesFor(H, m))
  }

  /** What the light client learns: an accepted proof for `key` against the root of `m` carries
      exactly the raw value stored under `key`, or none if there is none; anything else yields
      a violation of the hash function between what the proof and what the state hashes. */
  ghost function WrongValue(H: Hasher, m: Store, p: ShardedProof, key: Hash): (b: Break)
    requires p.inner.key == key && p.shardIndex == ShardIndex(key) && Connected(H, p, StateRoot(H, m))
    requires p.value != if key in m then Some(m[key]) else None
    ensures Genuine(H, b) && DrawnFrom(b, AllHashed(H, p), StateHashed(H, m))
  {
    TreesForHold(H, m, key);
    if ValueClaim(H, p) != Answer(TreesFor(H, m), key) then ForgedAnswer(H, TreesFor(H, m), p, key)
    else Collision(p.value.value, m[key])
  }

  // ------------------------------------------------------------------ updates

  ghost function Put(m: Store, e: Entry): Store {
    if e.1.Some? then m[e.0 := e.1.value] else m - {e.0}
  }

  /** Updates in order, later ones winning. */
  ghost function PutAll(m: Store, es: seq<Entry>): Store {
    if es == [] then m else Put(PutAll(m, es[..|es| - 1]), es[|es| - 1])
  }

  /** The updates routed to shard `i`, in order. */
  ghost function Routed(es: seq<Entry>, i: nat): (r: seq<Entry>)
    ensures |r| <= |es|
    ensures forall e :: e in r ==> ShardIndex(e.0) == i
  {
    if es == [] then []
    else
      var init, last := Routed(es[..|es| - 1], i), es[|es| - 1];
      if ShardIndex(last.0) == i then init + [last] else init
  }

  lemma {:induction false} PartPut(m: Store, e: Entry, i: nat)
    ensures Part(Put(m, e), i) == if ShardIndex(e.0) == i then Put(Part(m, i), e) else Part(m, i)
  {
  }

  /** Applying each shard's updates on its own part is applying all updates to the state: the
      shards may run in parallel. */
  lemma {:induction false} ShardsCommute(m: Store, es: seq<Entry>, i: nat)
    ensures PutAll(Part(m, i), Routed(es, i)) == Part(PutAll(m, es), i)
  {
    if es != [] {
      var init, last := es[..|es| - 1], es[|es| - 1];
      ShardsCommute(m, init, i);
      PartPut(PutAll(m, init), last, i);
      if ShardIndex(last.0) == i {
        assert Routed(es, i)[..|Routed(es, i)| - 1] == Routed(init, i);
      }
    }
  }

  lemma {:induction false} HashAllPut(H: Hasher, m: Store, e: Entry)
    ensures HashAll(H, Put(m, e)) == ApplyOne(H, HashAll(H, m), e)
  {
  }

  /** After every store among its updates the shard's tree fits into its arena. */
  ghost predicate ShardFits(H: Hasher, m: Store, es: seq<Entry>) {
    forall n :: 0 <= n < |es| && es[n].1.Some? ==> FitsArena(HashAll(H, Put(PutAll(m, es[..n]), es[n])), SHARD_BITS)
  }

  /** Every shard's tree of the state fits. */
  ghost predicate StateFits(H: Hasher, m: Store) {
    forall i: nat :: i < SHARD_COUNT ==> FitsArena(HashAll(H, Part(m, i)), SHARD_BITS)
  }

  lemma {:induction false} ShardStep(H: Hasher, m: Store, es: seq<Entry>, n: nat)
    requires n < |es| && ShardFits(H, m, es)
    ensures PutAll(m, es[..n + 1]) == Put(PutAll(m, es[..n]), es[n])
    ensures es[n].1.Some? ==> FitsArena(HashAll(H, Put(PutAll(m, es[..n]), es[n])), SHARD_BITS)
  {
    assert es[..n + 1][..n] == es[..n];
  }

  class ShardedSbmt {
    const H: Hasher
    var shards: seq<Sbmt>
    /** Raw values by shard, for reading back. */
    var values: seq<Store>
    var version: nat
    /** The state as one map. */
    ghost var store: Store

    /** Shard `i` and its value map hold `m`. */
    ghost predicate Holds(i: nat, m: Store)
      requires |shards| == |values| == SHARD_COUNT && i < SHARD_COUNT
      reads this, shards
    {
      && shards[i].Valid() && shards[i].H == H && shards[i].baseDepth == SHARD_BITS
      && shards[i].Content() == HashAll(H, m)
      && values[i] == m && OneShard(m, i)
    }

    ghost predicate Distinct()
      reads this
    {
      && |shards| == |values| == SHARD_COUNT
      && forall i, j :: 0 <= i < j < SHARD_COUNT ==> shards[i] != shards[j]
    }

    ghost predicate Valid()
      reads this, shards
    {
      Distinct() && forall i :: 0 <= i < SHARD_COUNT ==> Holds(i, Part(store, i))
    }

    /** Every shard has room for its share of the updates. */
    ghost predicate Room(es: seq<Entry>)
      reads this
    {
      forall i: nat :: i < SHARD_COUNT ==> ShardFits(H, Part(store, i), Routed(es, i))
    }

    constructor (hasher: Hasher)
      ensures Valid() && fresh(shards) && H == hasher && store == map[] && version == 0
    {
      H := hasher;
      version := 0;
      store := map[];
      values := seq(SHARD_COUNT, _ => map[]);
      shards := [];
      new;
      for i := 0 to SHARD_COUNT
        invariant |shards| == i && fresh(shards) && store == map[] && version == 0
        invariant values == seq(SHARD_COUNT, _ => map[])
        invariant forall a, b :: 0 <= a < b < i ==> shards[a] != shards[b]
        invariant forall a :: 0 <= a < i ==>
          && shards[a].Valid() && shards[a].H == H && shards[a].baseDepth == SHARD_BITS
          && shards[a].Content() == map[]
      {
        var s := new Sbmt(hasher, SHARD_BITS);
        shards := shards + [s];
      }
      assert HashAll(H, map[]) == map[];
      assert forall i :: 0 <= i < SHARD_COUNT ==> values[i] == Part(map[], i);
    }

    /** Sixteen shard roots, in order. */
    method Roots() returns (roots: seq<Hash>)
      requires Valid()
      modifies shards
      ensures Valid() && roots == ShardRoots(H, TreesFor(H, store))
    {
      roots := [];
      for i := 0 to SHARD_COUNT
        invariant Valid() && |roots| == i
        invariant forall j :: 0 <= j < i ==> roots[j] == HashOf(H, TreeFor(H, store, j))
      {
        assert Holds(i, Part(store, i));
        var h := shards[i].RootHash();
        roots := roots + [h];
      }
    }

    /** `root_hash`. */
    method RootHash() returns (h: Hash)
      requires Valid()
      modifies shards
      ensures Valid() && h == StateRoot(H, store) == StateRootOf(H, store)
    {
      StateRootExactly(H, store);
      var roots := Roots();
      SixteenLeaves();
      h := ShardTreeRoot(H, roots, SHARD_BITS);
    }

    /** `get`: the raw value. */
    method Get(key: Hash) returns (v: Option<seq<byte>>)
      requires Valid()
      ensures v == if key in store then Some(store[key]) else None
    {
      var i := ShardIndex(key);
      assert Holds(i, Part(store, i));
      v := if key in values[i] then Some(values[i][key]) else None;
    }

    /** The in-shard half of `prove`. */
    method ProveInShard(key: Hash) returns (inner: Bmt.BmtProof)
      requires Valid()
      modifies shards
      ensures Valid() && inner.key == key
      ensures
        var t := TreeFor(H, store, ShardIndex(key));
        Bmt.Accepts(H, inner, HashOf(H, t), if key in store then Some(HashValue(H, store[key])) else None, SHARD_BITS)
    {
      var i := ShardIndex(key);
      assert Holds(i, Part(store, i));
      inner := shards[i].Prove(key);
    }

    /** The outer half of `prove`: the path from one shard root to the combined root. */
    method ProveShard(i: nat) returns (root: Hash, path: seq<Hash>)
      requires Valid() && i < SHARD_COUNT
      modifies shards
      ensures Valid() && root == HashOf(H, TreeFor(H, store, i))
      ensures |path| == SHARD_BITS && FoldPath(H, root, i, path) == StateRoot(H, store)
    {
      var roots := Roots();
      SixteenLeaves();
      path := ShardTreePath(H, roots, i, SHARD_BITS);
      PathFoldsToRoot(H, roots, i, SHARD_BITS);
      root := roots[i];
    }

    /** `prove`: the light client's check accepts it for `key` under the current root, with the
        raw value stored under `key`. */
    method Prove(key: Hash) returns (p: ShardedProof)
      requires Valid()
      modifies shards
      ensures Valid()
      ensures p.inner.key == key && p.shardIndex == ShardIndex(key)
      ensures p.value == if key in store then Some(store[key]) else None
      ensures Connected(H, p, StateRoot(H, store))
    {
      var i := ShardIndex(key);
      var inner := ProveInShard(key);
      var value := Get(key);
      var root, path := ProveShard(i);
      p := ShardedProof(i, root, path, inner, value);
    }

    // ----------------------------------------------------------------- updates

    /** One update to one shard: the tree and the value map move together. */
    method PutInShard(i: nat, e: Entry, ghost m: Store)
      requires Distinct() && i < SHARD_COUNT && Holds(i, m) && ShardIndex(e.0) == i
      requires e.1.Some? ==> FitsArena(HashAll(H, Put(m, e)), SHARD_BITS)
      modifies this`values, shards[i]
      ensures Distinct() && Holds(i, Put(m, e))
      ensures forall j :: 0 <= j < SHARD_COUNT && j != i ==> values[j] == old(values[j])
    {
      HashAllPut(H, m, e);
      shards[i].ApplyEntry(e);
      var key: Hash, value := e.0, e.1;
      if value.Some? {
        var kv: Store := values[i][key := value.value];
        values := values[i := kv];
      } else {
        values := values[i := values[i] - {key}];
      }
    }

    /** One shard's share of `apply_diff`. */
    method ApplyShard(i: nat, es: seq<Entry>, ghost m: Store)
      requires Distinct() && i < SHARD_COUNT && Holds(i, m)
      requires forall e :: e in es ==> ShardIndex(e.0) == i
      requires ShardFits(H, m, es)
      modifies this`values, shards[i]
      ensures Distinct() && Holds(i, PutAll(m, es))
      ensures forall j :: 0 <= j < SHARD_COUNT && j != i ==> values[j] == old(values[j])
    {
      for n := 0 to |es|
        invariant Distinct() && Holds(i, PutAll(m, es[..n]))
        invariant forall j :: 0 <= j < SHARD_COUNT && j != i ==> values[j] == old(values[j])
      {
        ShardStep(H, m, es, n);
        assert es[n] in es;
        PutInShard(i, es[n], PutAll(m, es[..n]));
      }
      assert es[..|es|] == es;
    }

    /** Route each update to its shard, as `prepare` does. */
    static method Partition(es: seq<Entry>) returns (parts: seq<seq<Entry>>)
      ensures |parts| == SHARD_COUNT && forall i :: 0 <= i < SHARD_COUNT ==> parts[i] == Routed(es, i)
    {
      parts := seq(SHARD_COUNT, _ => []);
      for n := 0 to |es|
        invariant |parts| == SHARD_COUNT && forall i :: 0 <= i < SHARD_COUNT ==> parts[i] == Routed(es[..n], i)
      {
        assert es[..n + 1][..n] == es[..n];
        var i := ShardIndex(es[n].0);
        parts := parts[i := parts[i] + [es[n]]];
      }
      assert es[..|es|] == es;
    }

    /** The shards, one after the other, each with its own updates. */
    method ApplyParts(es: seq<Entry>)
      requires Valid() && Room(es)
      modifies this`values, shards
      ensures Distinct()
      ensures forall j :: 0 <= j < SHARD_COUNT ==> Holds(j, PutAll(Part(store, j), Routed(es, j)))
    {
      var parts := Partition(es);
      for i := 0 to SHARD_COUNT
        invariant Distinct()
        invariant forall j :: 0 <= j < i ==> Holds(j, PutAll(Part(store, j), Routed(es, j)))
        invariant forall j :: i <= j < SHARD_COUNT ==> Holds(j, Part(store, j))
      {
        ApplyShard(i, parts[i], Part(store, i));
      }
    }

    /** `apply_diff` once the diff is a list of key updates. */
    method ApplyUpdates(es: seq<Entry>) returns (root: Hash)
      requires Valid() && Room(es)
      modifies this, shards
      ensures Valid() && shards == old(shards)
      ensures store == PutAll(old(store), es) && version == old(version) + 1
      ensures root == StateRoot(H, store)
    {
      ApplyParts(es);
      forall j: nat | j < SHARD_COUNT ensures Holds(j, Part(PutAll(store, es), j)) {
        ShardsCommute(store, es, j);
      }
      store := PutAll(store, es);
      version := version + 1;
      root := RootHash();
    }

    /** `insert_raw`. */
    method InsertRaw(key: Hash, value: seq<byte>)
      requires Valid() && StateFits(H, store[key := value])
      modifies this`values, this`store, shards
      ensures Valid() && store == old(store)[key := value]
    {
      var i, e := ShardIndex(key), (key, Some(value));
      PartPut(store, e, i);
      assert Holds(i, Part(store, i));
      ghost var before := store;
      PutInShard(i, e, Part(store, i));
      store := store[key := value];
      forall j: nat | j < SHARD_COUNT ensures Holds(j, Part(store, j)) {
        PartPut(before, e, j);
      }
    }
  }

  /** A snapshot: raw entries in whatever order the value maps were walked. */
  type Entries = seq<(Hash, seq<byte>)>

  ghost function MapOf(es: Entries): Store {
    if es == [] then map[] else MapOf(es[..|es| - 1])[es[|es| - 1].0 := es[|es| - 1].1]
  }

  /** `es` lists exactly the state `m`. */
  ghost predicate Lists(es: Entries, m: Store) {
    && (forall i :: 0 <= i < |es| ==> es[i].0 in m && m[es[i].0] == es[i].1)
    && (forall k :: k in m ==> exists i :: 0 <= i < |es| && es[i].0 == k)
  }

  lemma {:induction false} MapOfHolds(es: Entries, key: Hash)
    ensures key in MapOf(es) <==> exists i :: 0 <= i < |es| && es[i].0 == key
    ensures key in MapOf(es) ==> exists i :: 0 <= i < |es| && es[i] == (key, MapOf(es)[key])
  {
    if es != [] {
      var init, last := es[..|es| - 1], |es| - 1;
      MapOfHolds(init, key);
      assert es[last] in es;
      if es[last].0 != key && key in MapOf(init) {
        var i :| 0 <= i < |init| && init[i] == (key, MapOf(init)[key]);
        assert es[i] == (key, MapOf(es)[key]);
      }
    }
  }

  /** Any listing of a state rebuilds that state. */
  lemma {:induction false} ListsRebuild(es: Entries, m: Store)
    requires Lists(es, m)
    ensures MapOf(es) == m
  {
    forall k: Hash ensures k in MapOf(es) <==> k in m
                   ensures k in m ==> MapOf(es)[k] == m[k]
    {
      MapOfHolds(es, k);
    }
  }

  /** `from_snapshot`: rebuild by inserting the entries, then compare the combined root. */
  method FromSnapshot(H: Hasher, es: Entries, version: nat, root: Hash) returns (t: Option<ShardedSbmt>)
    requires forall n :: 0 <= n <= |es| ==> StateFits(H, MapOf(es[..n]))
    ensures t.Some? <==> root == StateRoot(H, MapOf(es))
    ensures t.Some? ==> t.value.Valid() && t.value.store == MapOf(es) && t.value.version == version
  {
    var s := new ShardedSbmt(H);
    for n := 0 to |es|
      invariant s.Valid() && fresh(s) && fresh(s.shards) && s.H == H && s.store == MapOf(es[..n])
    {
      assert es[..n + 1][..n] == es[..n];
      assert StateFits(H, MapOf(es[..n + 1]));
      s.InsertRaw(es[n].0, es[n].1);
    }
    assert es[..|es|] == es;
    s.version := version;
    var actual := s.RootHash();
    if actual != root {
      return None;
    }
    return Some(s);
  }

  /** Snapshot round trip: whatever order a state's entries were dumped in, the root they are
      rebuilt to is the state's root. */
  lemma {:induction false} SnapshotRoundTrip(H: Hasher, m: Store, es: Entries)
    requires Lists(es, m)
    ensures StateRoot(H, MapOf(es)) == StateRoot(H, m)
  {
    ListsRebuild(es, m);
  }
}
