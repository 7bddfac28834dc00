/** The binary Merkle tree over the shard roots, computed level by level. */
module ShardTree {
  import opened Hashing

  /** Merkle root of `2^d` leaves, by halves. */
  ghost function MerkleRoot(H: Hasher, leaves: seq<Hash>, d: nat): Hash
    requires |leaves| == Pow2(d)
  {
    if d == 0 then leaves[0]
    else
      var half := Pow2(d - 1);
      H(MerkleRoot(H, leaves[..half], d - 1) + MerkleRoot(H, leaves[half..], d - 1))
  }

  function PairAt(H: Hasher, level: seq<Hash>, i: nat): Hash
    requires 2 * i + 1 < |level|
  {
    HashPair(H, level[2 * i], level[2 * i + 1])
  }

  /** The next level up: neighbours hashed in pairs. */
  function PairUp(H: Hasher, level: seq<Hash>): (up: seq<Hash>)
    ensures |up| == |level| / 2
    ensures forall i :: 0 <= i < |up| ==> up[i] == PairAt(H, level, i)
  {
    seq(|level| / 2, i requires 0 <= i < |level| / 2 => PairAt(H, level, i))
  }

  lemma {:induction false} PairUpSlices(H: Hasher, level: seq<Hash>, q: nat)
    requires 2 * q <= |level|
    ensures PairUp(H, level)[..q] == PairUp(H, level[..2 * q])
    ensures PairUp(H, level)[q..] == PairUp(H, level[2 * q..])
  {
    var a, b := PairUp(H, level)[..q], PairUp(H, level[..2 * q]);
    forall i | 0 <= i < q ensures a[i] == b[i] {
      assert b[i] == PairAt(H, level[..2 * q], i) == PairAt(H, level, i);
    }
    var c, e := PairUp(H, level)[q..], PairUp(H, level[2 * q..]);
    forall i | 0 <= i < |c| ensures c[i] == e[i] {
      assert e[i] == PairAt(H, level[2 * q..], i) == PairAt(H, level, q + i);
    }
  }

  /** Pairing up one level does not change the root. */
  lemma {:induction false} PairUpKeepsRoot(H: Hasher, leaves: seq<Hash>, d: nat)
    requires d > 0 && |leaves| == Pow2(d)
    ensures |PairUp(H, leaves)| == Pow2(d - 1)
    ensures MerkleRoot(H, PairUp(H, leaves), d - 1) == MerkleRoot(H, leaves, d)
    decreases d
  {
    var half := Pow2(d - 1);
    if d == 1 {
      assert PairUp(H, leaves)[0] == PairAt(H, leaves, 0);
    } else {
      PairUpSlices(H, leaves, Pow2(d - 2));
      PairUpKeepsRoot(H, leaves[..half], d - 1);
      PairUpKeepsRoot(H, leaves[half..], d - 1);
    }
  }

  /** `shard_tree_root`. */
  method ShardTreeRoot(H: Hasher, leaves: seq<Hash>, ghost d: nat) returns (root: Hash)
    requires |leaves| == Pow2(d)
    ensures root == MerkleRoot(H, leaves, d)
  {
    var level := leaves;
    ghost var e := d;
    while |level| > 1
      invariant |level| == Pow2(e) && |level| >= 1
      invariant MerkleRoot(H, level, e) == MerkleRoot(H, leaves, d)
      decreases |level|
    {
      PairUpKeepsRoot(H, level, e);
      assert |level| == 2 * Pow2(e - 1);
      level := PairUp(H, level);
      e := e - 1;
    }
    root := level[0];
  }

  /** `idx ^ 1`. */
  function Sibling(idx: nat): nat {
    if idx % 2 == 0 then idx + 1 else idx - 1
  }

  /** Siblings from leaf `idx` up. */
  function Path(H: Hasher, leaves: seq<Hash>, idx: nat, d: nat): (path: seq<Hash>)
    requires |leaves| == Pow2(d) && idx < |leaves|
    ensures |path| == d
    decreases d
  {
    if d == 0 then [] else [leaves[Sibling(idx)]] + Path(H, PairUp(H, leaves), idx / 2, d - 1)
  }

  /** `shard_tree_path`. */
  method ShardTreePath(H: Hasher, leaves: seq<Hash>, index: nat, ghost d: nat) returns (path: seq<Hash>)
    requires |leaves| == Pow2(d) && index < |leaves|
    ensures path == Path(H, leaves, index, d) && |path| == d
  {
    path := [];
    var level, idx: nat := leaves, index;
    ghost var e := d;
    while |level| > 1
      invariant |level| == Pow2(e) && idx < |level|
      invariant path + Path(H, level, idx, e) == Path(H, leaves, index, d)
      decreases |level|
    {
      path := path + [level[Sibling(idx)]];
      assert |level| == 2 * Pow2(e - 1);
      level := PairUp(H, level);
      idx := idx / 2;
      e := e - 1;
    }
  }

  /** The input hashed when `h` at `idx` meets its sibling. */
  function Joined(h: Hash, idx: nat, sibling: Hash): seq<byte> {
    if idx % 2 == 0 then PairBytes(h, sibling) else PairBytes(sibling, h)
  }

  /** The root that a leaf and a path lead to. */
  function FoldPath(H: Hasher, leaf: Hash, idx: nat, path: seq<Hash>): Hash
    decreases |path|
  {
    if path == [] then leaf else FoldPath(H, H(Joined(leaf, idx, path[0])), idx / 2, path[1..])
  }

  /** `shard_tree_root_from_path`. */
  method ShardTreeRootFromPath(H: Hasher, leaf: Hash, index: nat, path: seq<Hash>) returns (root: Hash)
    ensures root == FoldPath(H, leaf, index, path)
  {
    var cur, idx := leaf, index;
    for i := 0 to |path|
      invariant FoldPath(H, cur, idx, path[i..]) == FoldPath(H, leaf, index, path)
    {
      assert path[i..][1..] == path[i + 1..];
      if idx % 2 == 0 {
        cur := HashPair(H, cur, path[i]);
      } else {
        cur := HashPair(H, path[i], cur);
      }
      idx := idx / 2;
    }
    root := cur;
  }

  /** The true path leads from the true leaf to the root. */
  lemma {:induction false} PathFoldsToRoot(H: Hasher, leaves: seq<Hash>, idx: nat, d: nat)
    requires |leaves| == Pow2(d) && idx < |leaves|
    ensures FoldPath(H, leaves[idx], idx, Path(H, leaves, idx, d)) == MerkleRoot(H, leaves, d)
    decreases d
  {
    if d > 0 {
      var up, rest := PairUp(H, leaves), Path(H, PairUp(H, leaves), idx / 2, d - 1);
      PathFoldsToRoot(H, up, idx / 2, d - 1);
      PairUpKeepsRoot(H, leaves, d);
      JoinedIsPair(H, leaves, idx, d);
      assert ([leaves[Sibling(idx)]] + rest)[1..] == rest;
    }
  }

  lemma {:induction false} JoinedIsPair(H: Hasher, leaves: seq<Hash>, idx: nat, d: nat)
    requires d > 0 && |leaves| == Pow2(d) && idx < |leaves|
    ensures Sibling(idx) < |leaves| && idx / 2 < |PairUp(H, leaves)|
    ensures H(Joined(leaves[idx], idx, leaves[Sibling(idx)])) == PairUp(H, leaves)[idx / 2]
  {
    var q, r := idx / 2, idx % 2;
    assert idx == 2 * q + r && (r == 0 || r == 1);
    PairMembers(H, leaves, Pow2(d - 1), q);
  }

  /** Both members of a pair meet in it. */
  lemma {:induction false} PairMembers(H: Hasher, leaves: seq<Hash>, half: nat, q: nat)
    requires |leaves| == 2 * half && q < half
    ensures Sibling(2 * q) == 2 * q + 1 && Sibling(2 * q + 1) == 2 * q && q < |PairUp(H, leaves)|
    ensures H(Joined(leaves[2 * q], 2 * q, leaves[2 * q + 1])) == PairUp(H, leaves)[q]
    ensures H(Joined(leaves[2 * q + 1], 2 * q + 1, leaves[2 * q])) == PairUp(H, leaves)[q]
  {
    assert PairUp(H, leaves)[q] == PairAt(H, leaves, q);
  }

  /** The inputs hashed on the way from a leaf up a path. */
  function PathHashed(H: Hasher, leaf: Hash, idx: nat, path: seq<Hash>): set<seq<byte>>
    decreases |path|
  {
    if path == [] then {}
    else
      var x := Joined(leaf, idx, path[0]);
      {x} + PathHashed(H, H(x), idx / 2, path[1..])
  }

  function PairBytesAt(level: seq<Hash>, i: nat): seq<byte>
    requires 2 * i + 1 < |level|
  {
    PairBytes(level[2 * i], level[2 * i + 1])
  }

  /** The inputs hashed for the root of `2^d` leaves, level by level. */
  ghost function LevelsHashed(H: Hasher, leaves: seq<Hash>, d: nat): set<seq<byte>>
    requires |leaves| == Pow2(d)
    decreases d
  {
    if d == 0 then {} else PairsHashed(leaves, |leaves| / 2) + LevelsHashed(H, PairUp(H, leaves), d - 1)
  }

  /** The inputs hashed for the first `n` pairs of a level. */
  ghost function PairsHashed(level: seq<Hash>, n: nat): set<seq<byte>>
    requires 2 * n <= |level|
  {
    if n == 0 then {} else PairsHashed(level, n - 1) + {PairBytesAt(level, n - 1)}
  }

  lemma {:induction false} PairIsHashed(level: seq<Hash>, n: nat, i: nat)
    requires i < n && 2 * n <= |level|
    ensures PairBytesAt(level, i) in PairsHashed(level, n)
  {
    if i < n - 1 { PairIsHashed(level, n - 1, i); }
  }

  /** A true path hashes only what the root does. */
  lemma {:induction false} TruePathHashed(H: Hasher, leaves: seq<Hash>, idx: nat, d: nat)
    requires |leaves| == Pow2(d) && idx < |leaves|
    ensures PathHashed(H, leaves[idx], idx, Path(H, leaves, idx, d)) <= LevelsHashed(H, leaves, d)
    decreases d
  {
    if d > 0 {
      var up, q := PairUp(H, leaves), idx / 2;
      var path, rest := Path(H, leaves, idx, d), Path(H, up, q, d - 1);
      var x := Joined(leaves[idx], idx, leaves[Sibling(idx)]);
      assert path[0] == leaves[Sibling(idx)] && path[1..] == rest;
      assert up[q] == H(x) by { JoinedIsPair(H, leaves, idx, d); }
      assert PathHashed(H, up[q], q, rest) <= LevelsHashed(H, up, d - 1) by { TruePathHashed(H, up, q, d - 1); }
      assert x in PairsHashed(leaves, |leaves| / 2) by { JoinedIsHashed(leaves, idx, Pow2(d - 1)); }
    }
  }

  lemma {:induction false} JoinedIsHashed(level: seq<Hash>, idx: nat, half: nat)
    requires |level| == 2 * half && idx < |level|
    ensures Sibling(idx) < |level|
    ensures Joined(level[idx], idx, level[Sibling(idx)]) in PairsHashed(level, |level| / 2)
  {
    var q, r := idx / 2, idx % 2;
    assert idx == 2 * q + r && (r == 0 || r == 1);
    PairIsHashed(level, half, q);
  }

  /** Two paths of one length from different leaves at one index to one root contain a collision:
      follow both up to where they meet. */
  function PathsClash(H: Hasher, idx: nat, a: Hash, p: seq<Hash>, b: Hash, q: seq<Hash>): (br: Break)
    requires |p| == |q| && a != b && FoldPath(H, a, idx, p) == FoldPath(H, b, idx, q)
    ensures br.Collision? && Genuine(H, br) && DrawnFrom(br, PathHashed(H, a, idx, p), PathHashed(H, b, idx, q))
    decreases |p|
  {
    var x, y := Joined(a, idx, p[0]), Joined(b, idx, q[0]);
    if H(x) != H(y) then PathsClash(H, idx / 2, H(x), p[1..], H(y), q[1..])
    else
      PairBytesInjective(a, p[0], b, q[0]);
      PairBytesInjective(p[0], a, q[0], b);
      Collision(x, y)
  }

  /** So a path of full length that leads from some other leaf to the root contains a collision with
      the true path. */
  function Detour(H: Hasher, leaves: seq<Hash>, d: nat, leaf: Hash, idx: nat, path: seq<Hash>): (b: Break)
    requires |leaves| == Pow2(d) && idx < |leaves| && |path| == d
    requires FoldPath(H, leaf, idx, path) == MerkleRoot(H, leaves, d)
    requires leaf != leaves[idx]
    ensures b.Collision? && Genuine(H, b)
    ensures DrawnFrom(b, PathHashed(H, leaf, idx, path), LevelsHashed(H, leaves, d))
  {
    PathFoldsToRoot(H, leaves, idx, d);
    TruePathHashed(H, leaves, idx, d);
    PathsClash(H, idx, leaf, path, leaves[idx], Path(H, leaves, idx, d))
  }
}
