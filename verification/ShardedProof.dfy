/** The end-to-end proof that a light client checks against a combined state root. */
module ShardedProof {
  import opened Hashing
  import opened MerkleTree
  import opened BmtProof
  import Bmt = BmtProof
  import opened ShardTree

  const SHARD_COUNT := 16
  /** `log2(SHARD_COUNT)`: the path length of the shard tree and the base depth of a shard. */
  const SHARD_BITS := 4

  /** `shard_index_for_key`: the top nibble of byte 0. */
  function ShardIndex(key: Hash): (i: nat)
    ensures i < SHARD_COUNT
  {
    NibbleBound(key[0]);
    Shr(key[0], 4)
  }

  lemma {:induction false} NibbleBound(x: byte)
    ensures Shr(x, 4) == x / 16
  {
    assert Shr(x, 4) == Shr(x / 2, 3) == Shr(x / 2 / 2, 2) == Shr(x / 2 / 2 / 2, 1) == Shr(x / 2 / 2 / 2 / 2, 0);
  }

  /** Routing agrees with the skipped prefix: keys of one shard share exactly the bits that
      the shard's tree does not branch on. */
  lemma {:induction false} SameShardSharesPrefix(a: Hash, b: Hash)
    ensures ShardIndex(a) == ShardIndex(b) <==> AgreeOn(a, b, 0, SHARD_BITS)
  {
    var x, y := Shr(a[0], 4), Shr(b[0], 4);
    forall i: nat | i < 4
      ensures Bit(a, i) == (Shr(x, 3 - i) % 2 == 1) && Bit(b, i) == (Shr(y, 3 - i) % 2 == 1)
    {
      ShrCompose(a[0], 4, 3 - i);
      ShrCompose(b[0], 4, 3 - i);
    }
    if AgreeOn(a, b, 0, SHARD_BITS) {
      forall j | 0 <= j < 4 ensures Shr(x, j) % 2 == Shr(y, j) % 2 {
        var i := 3 - j;
        assert Bit(a, i) == Bit(b, i);
      }
      NibbleBound(a[0]);
      NibbleBound(b[0]);
      assert Pow2(4) == 16;
      BitsDetermineByte(x, y, 4);
    }
  }

  datatype ShardedProof = ShardedProof(
    shardIndex: byte,
    shardRoot: Hash,
    shardPath: seq<Hash>,
    inner: BmtProof,
    value: Option<seq<byte>>)

  datatype VerifyError =
    | ShardIndexOutOfRange(got: byte)
    | KeyMismatch
    | WrongShardForKey(expected: nat, actual: byte)
    | CombinedRootMismatch
    | MalformedShardPath(len: nat, expectedLen: nat)
    | ValueHashMismatch
    | InShardProofFailed

  datatype Verdict = Ok | Err(error: VerifyError)

  function ValueClaim(H: Hasher, p: ShardedProof): Option<Hash> {
    if p.value.Some? then Some(HashValue(H, p.value.value)) else None
  }

  /** The proof connects its value to the combined root. */
  ghost predicate Connected(H: Hasher, p: ShardedProof, combinedRoot: Hash) {
    && p.shardIndex < SHARD_COUNT
    && |p.shardPath| == SHARD_BITS
    && FoldPath(H, p.shardRoot, p.shardIndex, p.shardPath) == combinedRoot
    && Accepts(H, p.inner, p.shardRoot, ValueClaim(H, p), SHARD_BITS)
  }

  predicate RightShape(p: ShardedProof) {
    p.shardIndex < SHARD_COUNT && |p.shardPath| == SHARD_BITS
  }

  /** `ShardedBmtProof::verify`: each check in turn, the first that fails giving the error. */
  method Verify(H: Hasher, p: ShardedProof, combinedRoot: Hash) returns (verdict: Verdict)
    ensures verdict.Ok? <==> Connected(H, p, combinedRoot)
    ensures verdict.Err? ==> !verdict.error.KeyMismatch? && !verdict.error.WrongShardForKey?
    ensures verdict == Err(ShardIndexOutOfRange(p.shardIndex)) <==> p.shardIndex >= SHARD_COUNT
    ensures verdict == Err(MalformedShardPath(|p.shardPath|, SHARD_BITS))
            <==> p.shardIndex < SHARD_COUNT && |p.shardPath| != SHARD_BITS
    ensures verdict == Err(CombinedRootMismatch)
            <==> RightShape(p) && FoldPath(H, p.shardRoot, p.shardIndex, p.shardPath) != combinedRoot
    ensures verdict == Err(ValueHashMismatch)
            <==> RightShape(p) && FoldPath(H, p.shardRoot, p.shardIndex, p.shardPath) == combinedRoot
                 && p.inner.valueHash != ValueClaim(H, p)
    ensures verdict == Err(InShardProofFailed)
            <==> RightShape(p) && FoldPath(H, p.shardRoot, p.shardIndex, p.shardPath) == combinedRoot
                 && p.inner.valueHash == ValueClaim(H, p)
                 && !Accepts(H, p.inner, p.shardRoot, p.inner.valueHash, SHARD_BITS)
  {
    if p.shardIndex >= SHARD_COUNT {
      return Err(ShardIndexOutOfRange(p.shardIndex));
    }
    if |p.shardPath| != SHARD_BITS {
      return Err(MalformedShardPath(|p.shardPath|, SHARD_BITS));
    }
    var computed := ShardTreeRootFromPath(H, p.shardRoot, p.shardIndex, p.shardPath);
    if computed != combinedRoot {
      return Err(CombinedRootMismatch);
    }
    var expected := ValueClaim(H, p);
    if p.inner.valueHash != expected {
      return Err(ValueHashMismatch);
    }
    var ok := Bmt.Verify(H, p.inner, p.shardRoot, expected, SHARD_BITS);
    if !ok {
      return Err(InShardProofFailed);
    }
    return Ok;
  }

  /** `ShardedBmtProof::verify_for_key`. */
  method VerifyForKey(H: Hasher, p: ShardedProof, combinedRoot: Hash, key: Hash) returns (verdict: Verdict)
    ensures verdict.Ok? <==> p.inner.key == key && p.shardIndex == ShardIndex(key) && Connected(H, p, combinedRoot)
    ensures verdict == Err(KeyMismatch) <==> p.inner.key != key
    ensures verdict == Err(WrongShardForKey(ShardIndex(key), p.shardIndex))
            <==> p.inner.key == key && p.shardIndex != ShardIndex(key)
  {
    if p.inner.key != key {
      return Err(KeyMismatch);
    }
    var expected := ShardIndex(key);
    if p.shardIndex != expected {
      return Err(WrongShardForKey(expected, p.shardIndex));
    }
    verdict := Verify(H, p, combinedRoot);
  }

  // --------------------------------------------------------------- soundness

  /** Sixteen trees, each holding only keys routed to it. */
  ghost predicate IsSharded(ts: seq<Tree>) {
    && |ts| == SHARD_COUNT
    && (forall i :: 0 <= i < |ts| ==> Placed(ts[i], SHARD_BITS))
    && (forall i, k :: 0 <= i < |ts| && k in Contents(ts[i]) ==> ShardIndex(k) == i)
  }

  function ShardRoots(H: Hasher, ts: seq<Tree>): (roots: seq<Hash>)
    ensures |roots| == |ts| && forall i :: 0 <= i < |ts| ==> roots[i] == HashOf(H, ts[i])
  {
    seq(|ts|, i requires 0 <= i < |ts| => HashOf(H, ts[i]))
  }

  lemma {:induction false} SixteenLeaves()
    ensures Pow2(SHARD_BITS) == SHARD_COUNT
  {
    assert Pow2(4) == 2 * Pow2(3) == 4 * Pow2(2) == 8 * Pow2(1) == 16;
  }

  ghost function CombinedRoot(H: Hasher, ts: seq<Tree>): Hash
    requires |ts| == SHARD_COUNT
  {
    SixteenLeaves();
    MerkleRoot(H, ShardRoots(H, ts), SHARD_BITS)
  }

  /** What the sharded state holds under `key`. */
  ghost function Answer(ts: seq<Tree>, key: Hash): Option<Hash>
    requires |ts| == SHARD_COUNT
  {
    var m := Contents(ts[ShardIndex(key)]);
    if key in m then Some(m[key]) else None
  }

  /** A key lives in its own shard or nowhere. */
  lemma {:induction false} AbsentEverywhere(ts: seq<Tree>, key: Hash)
    requires IsSharded(ts)
    ensures Answer(ts, key).None? <==> forall i :: 0 <= i < |ts| ==> key !in Contents(ts[i])
  {
  }

  /** The inputs hashed by a verifier of the proof: the value, the path in the shard and the path of
      the shard. */
  function AllHashed(H: Hasher, p: ShardedProof): set<seq<byte>>
    requires InKey(SHARD_BITS, |p.inner.siblings|)
  {
    ValueHashed(p.value) + ProofHashed(H, p.inner, SHARD_BITS)
    + PathHashed(H, p.shardRoot, p.shardIndex, p.shardPath)
  }

  function ValueHashed(value: Option<seq<byte>>): set<seq<byte>> {
    if value.Some? then {value.value} else {}
  }

  /** The inputs hashed for the combined root of sixteen trees. */
  ghost function TreesHashed(H: Hasher, ts: seq<Tree>): set<seq<byte>>
    requires |ts| == SHARD_COUNT
  {
    SixteenLeaves();
    (set i, x | 0 <= i < |ts| && x in TreeHashed(H, ts[i]) :: x) + LevelsHashed(H, ShardRoots(H, ts), SHARD_BITS)
  }

  /** End-to-end key binding: a proof that `verify_for_key` accepts for a key, with an answer
      that is not what the state holds under that key, yields a violation of the hash
      function between what the proof and what the state hashes. */
  function ForgedAnswer(H: Hasher, ts: seq<Tree>, p: ShardedProof, key: Hash): (b: Break)
    requires IsSharded(ts)
    requires p.inner.key == key && p.shardIndex == ShardIndex(key) && Connected(H, p, CombinedRoot(H, ts))
    requires ValueClaim(H, p) != Answer(ts, key)
    ensures Genuine(H, b) && DrawnFrom(b, AllHashed(H, p), TreesHashed(H, ts))
  {
    SixteenLeaves();
    var roots, i := ShardRoots(H, ts), ShardIndex(key);
    if p.shardRoot != roots[i] then Detour(H, roots, SHARD_BITS, p.shardRoot, i, p.shardPath)
    else Forgery(H, ts[i], p.inner, ValueClaim(H, p), SHARD_BITS)
  }

  /** Without knowing any tree: two accepted proofs that give one key two values under one combined
      root. */
  function ConflictingValues(H: Hasher, p: ShardedProof, q: ShardedProof, combinedRoot: Hash, key: Hash): (b: Break)
    requires p.inner.key == key && p.shardIndex == ShardIndex(key) && Connected(H, p, combinedRoot)
    requires q.inner.key == key && q.shardIndex == ShardIndex(key) && Connected(H, q, combinedRoot)
    requires p.value != q.value
    ensures Genuine(H, b) && DrawnFrom(b, AllHashed(H, p), AllHashed(H, q))
  {
    if p.shardRoot != q.shardRoot then PathsClash(H, p.shardIndex, p.shardRoot, p.shardPath, q.shardRoot, q.shardPath)
    else if ValueClaim(H, p) != ValueClaim(H, q) then
      Bmt.Conflict(H, p.inner, q.inner, p.shardRoot, ValueClaim(H, p), ValueClaim(H, q), SHARD_BITS)
    else Collision(p.value.value, q.value.value)
  }
}
