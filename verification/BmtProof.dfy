/** Inclusion and exclusion proofs for one key of one tree, and their verifier. */
module BmtProof {
  import opened Hashing
  import opened MerkleTree

  datatype BmtProof = BmtProof(
    key: Hash,
    valueHash: Option<Hash>,
    /** Sibling hashes, top-down. */
    siblings: seq<Hash>,
    otherLeaf: Option<(Hash, Hash)>)

  /** The path `[depth, depth + n)` lies inside the key. */
  predicate InKey(depth: nat, n: nat) {
    depth <= KEY_BITS && n <= KEY_BITS - depth
  }

  /** What the proof says is at the end of the path. */
  function End(p: BmtProof): (t: Tree)
    ensures !t.Node?
  {
    if p.valueHash.Some? then Leaf(p.key, p.valueHash.value)
    else if p.otherLeaf.Some? then Leaf(p.otherLeaf.value.0, p.otherLeaf.value.1)
    else Empty
  }

  /** Root of the path: the subtree hash `h` combined with the siblings along `key`. */
  function Fold(H: Hasher, key: Hash, siblings: seq<Hash>, depth: nat, h: Hash): Hash
    requires InKey(depth, |siblings|)
    decreases |siblings|
  {
    if siblings == [] then h
    else H(Step(H, key, siblings, depth, h))
  }

  /** The input hashed at the top of a non-empty path. */
  function Step(H: Hasher, key: Hash, siblings: seq<Hash>, depth: nat, h: Hash): seq<byte>
    requires siblings != [] && InKey(depth, |siblings|)
    decreases |siblings|, 0
  {
    var below := Fold(H, key, siblings[1..], depth + 1, h);
    if Bit(key, depth) then InternalBytes(siblings[0], below) else InternalBytes(below, siblings[0])
  }

  /** `shares_prefix_range`. */
  predicate SharesRange(a: Hash, b: Hash, base: nat, n: nat)
    requires InKey(base, n)
  {
    forall d :: base <= d < base + n ==> Bit(a, d) == Bit(b, d)
  }

  /** `shares_prefix_range`. */
  method SharesPrefix(a: Hash, b: Hash, base: nat, n: nat) returns (same: bool)
    requires InKey(base, n)
    ensures same == SharesRange(a, b, base, n)
  {
    for d := base to base + n
      invariant SharesRange(a, b, base, d - base)
    {
      if Bit(a, d) != Bit(b, d) {
        return false;
      }
    }
    return true;
  }

  /** The claim "`p.key` has value hash `claim`" is proved by `p` for `root`. */
  predicate Accepts(H: Hasher, p: BmtProof, root: Hash, claim: Option<Hash>, base: nat) {
    && InKey(base, |p.siblings|)
    && p.valueHash == claim
    && (p.otherLeaf.Some? ==>
          && claim.None?
          && p.otherLeaf.value.0 != p.key
          && SharesRange(p.key, p.otherLeaf.value.0, base, |p.siblings|))
    && Fold(H, p.key, p.siblings, base, HashOf(H, End(p))) == root
  }

  /** `BmtProof::verify`: untrusted input; the path is folded from the leaf up. */
  method Verify(H: Hasher, p: BmtProof, root: Hash, expected: Option<Hash>, base: nat) returns (ok: bool)
    ensures ok == Accepts(H, p, root, expected, base)
  {
    if base > KEY_BITS || |p.siblings| > KEY_BITS - base {
      return false;
    }
    if p.valueHash != expected {
      return false;
    }
    var cur;
    match (p.valueHash, p.otherLeaf) {
    case (Some(v), None) => cur := HashLeaf(H, p.key, v);
    case (None, None) => cur := EMPTY_HASH;
    case (None, Some(other)) =>
      if other.0 == p.key {
        return false;
      }
      var shared := SharesPrefix(p.key, other.0, base, |p.siblings|);
      if !shared {
        return false;
      }
      cur := HashLeaf(H, other.0, other.1);
    case (Some(_), Some(_)) => return false;
    }
    ghost var leaf := cur;
    var i := |p.siblings|;
    while i > 0
      invariant 0 <= i <= |p.siblings|
      invariant cur == Fold(H, p.key, p.siblings[i..], base + i, leaf)
    {
      i := i - 1;
      assert p.siblings[i..][1..] == p.siblings[i + 1..];
      if Bit(p.key, base + i) {
        cur := HashInternal(H, p.siblings[i], cur);
      } else {
        cur := HashInternal(H, cur, p.siblings[i]);
      }
    }
    assert p.siblings[0..] == p.siblings;
    return cur == root;
  }

  // ------------------------------------------------------------ completeness

  /** `Sbmt::prove`, on the tree as a value. */
  function Prove(H: Hasher, t: Tree, key: Hash, depth: nat): (p: BmtProof)
    requires Placed(t, depth)
    ensures p.key == key
  {
    match t
    case Empty => BmtProof(key, None, [], None)
    case Leaf(k, v) =>
      if k == key then BmtProof(key, Some(v), [], None) else BmtProof(key, None, [], Some((k, v)))
    case Node(l, r) =>
      if Bit(key, depth) then
        var below := Prove(H, r, key, depth + 1);
        below.(siblings := [HashOf(H, l)] + below.siblings)
      else
        var below := Prove(H, l, key, depth + 1);
        below.(siblings := [HashOf(H, r)] + below.siblings)
  }

  /** A proof seen from further up, past the given siblings. */
  ghost function Extend(above: seq<Hash>, p: BmtProof): BmtProof {
    p.(siblings := above + p.siblings)
  }

  lemma {:induction false} ExtendStep(H: Hasher, t: Tree, key: Hash, depth: nat, above: seq<Hash>)
    requires Placed(t, depth) && t.Node?
    ensures
      var right := Bit(key, depth);
      var next, other := if right then t.right else t.left, if right then t.left else t.right;
      Extend(above, Prove(H, t, key, depth)) == Extend(above + [HashOf(H, other)], Prove(H, next, key, depth + 1))
  {
    var right := Bit(key, depth);
    var next, other := if right then t.right else t.left, if right then t.left else t.right;
    var below := Prove(H, next, key, depth + 1);
    assert above + ([HashOf(H, other)] + below.siblings) == (above + [HashOf(H, other)]) + below.siblings;
  }

  /** The honest proof of any key stays inside the key and folds to the root. */
  lemma {:induction false} ProveFolds(H: Hasher, t: Tree, key: Hash, depth: nat)
    requires Placed(t, depth) && depth <= KEY_BITS
    ensures
      var p := Prove(H, t, key, depth);
      && InKey(depth, |p.siblings|)
      && Fold(H, key, p.siblings, depth, HashOf(H, End(p))) == HashOf(H, t)
  {
    if t.Node? {
      var next := if Bit(key, depth) then t.right else t.left;
      var p, q := Prove(H, t, key, depth), Prove(H, next, key, depth + 1);
      assert InKey(depth + 1, |q.siblings|)
             && Fold(H, key, q.siblings, depth + 1, HashOf(H, End(q))) == HashOf(H, next) by {
        ProveFolds(H, next, key, depth + 1);
      }
      assert p.siblings[1..] == q.siblings && End(p) == End(q);
    }
  }

  /** It claims what the tree holds, and an occupying leaf is a leaf of the tree that shares
      the whole path with the key. */
  lemma {:induction false} ProveAnswers(H: Hasher, t: Tree, key: Hash, depth: nat)
    requires Placed(t, depth)
    ensures
      var p := Prove(H, t, key, depth);
      && |p.siblings| <= Levels(depth)
      && p.valueHash == Lookup(t, key, depth)
      && (p.otherLeaf.Some? ==>
            var (k, v) := p.otherLeaf.value;
            && p.valueHash.None? && k != key
            && k in Contents(t) && Contents(t)[k] == v
            && (depth <= KEY_BITS ==> SharesRange(key, k, depth, |p.siblings|)))
  {
    if t.Node? {
      var right := Bit(key, depth);
      ProveAnswers(H, if right then t.right else t.left, key, depth + 1);
      var other := Prove(H, t, key, depth).otherLeaf;
      if other.Some? {
        assert Bit(other.value.0, depth) == right;
      }
    }
  }

  /** Completeness: an honest proof is accepted with exactly the tree's answer, and with no
      other, whenever the tree's base depth is one the verifier accepts at all. */
  lemma {:induction false} ProveAccepted(H: Hasher, t: Tree, key: Hash, base: nat, claim: Option<Hash>)
    requires Placed(t, base)
    ensures Accepts(H, Prove(H, t, key, base), HashOf(H, t), claim, base)
            <==> base <= KEY_BITS && claim == Lookup(t, key, base)
  {
    if base <= KEY_BITS {
      ProveFolds(H, t, key, base);
      ProveAnswers(H, t, key, base);
    }
  }

  // --------------------------------------------------------------- soundness

  /** The inputs hashed on the way from an end up a path: its leaf, if there is one, and the node at
      every level. */
  function Hashed(H: Hasher, key: Hash, siblings: seq<Hash>, depth: nat, e: Tree): set<seq<byte>>
    requires InKey(depth, |siblings|) && !e.Node?
    decreases |siblings|
  {
    if siblings != [] then
      {Step(H, key, siblings, depth, HashOf(H, e))} + Hashed(H, key, siblings[1..], depth + 1, e)
    else EndHashed(e)
  }

  function EndHashed(e: Tree): set<seq<byte>>
    requires !e.Node?
  {
    if e.Leaf? then {LeafBytes(e.key, e.value)} else {}
  }

  /** The inputs hashed by a verifier of the proof. */
  function ProofHashed(H: Hasher, p: BmtProof, base: nat): set<seq<byte>>
    requires InKey(base, |p.siblings|)
  {
    Hashed(H, p.key, p.siblings, base, End(p))
  }

  /** The inputs hashed for the root of a tree. */
  function TreeHashed(H: Hasher, t: Tree): set<seq<byte>> {
    match t
    case Empty => {}
    case Leaf(k, v) => {LeafBytes(k, v)}
    case Node(l, r) => {InternalBytes(HashOf(H, l), HashOf(H, r))} + TreeHashed(H, l) + TreeHashed(H, r)
  }

  /** An honest proof hashes only what the tree does. */
  lemma {:induction false} ProveHashed(H: Hasher, t: Tree, key: Hash, depth: nat)
    requires Placed(t, depth) && depth <= KEY_BITS
    ensures InKey(depth, |Prove(H, t, key, depth).siblings|)
    ensures ProofHashed(H, Prove(H, t, key, depth), depth) <= TreeHashed(H, t)
  {
    ProveFolds(H, t, key, depth);
    if t.Node? {
      var next := if Bit(key, depth) then t.right else t.left;
      var p, q := Prove(H, t, key, depth), Prove(H, next, key, depth + 1);
      ProveFolds(H, next, key, depth + 1);
      assert ProofHashed(H, q, depth + 1) <= TreeHashed(H, next) by { ProveHashed(H, next, key, depth + 1); }
      assert p.siblings[1..] == q.siblings && End(p) == End(q);
      assert Step(H, key, p.siblings, depth, HashOf(H, End(p))) == InternalBytes(HashOf(H, t.left), HashOf(H, t.right));
    }
  }

  /** Two paths along one key that reach one root from different ends: walk down to the first
      place where they part, which is a violation of the hash function between the two. */
  function Extract(H: Hasher, key: Hash, depth: nat, s1: seq<Hash>, e1: Tree, s2: seq<Hash>, e2: Tree): (b: Break)
    requires InKey(depth, |s1|) && InKey(depth, |s2|)
    requires !e1.Node? && !e2.Node? && e1 != e2
    requires Fold(H, key, s1, depth, HashOf(H, e1)) == Fold(H, key, s2, depth, HashOf(H, e2))
    ensures Genuine(H, b) && DrawnFrom(b, Hashed(H, key, s1, depth, e1), Hashed(H, key, s2, depth, e2))
    decreases |s1|
  {
    if s1 == [] && s2 == [] then EndsCollide(H, e1, e2)
    else if s1 == [] then EndMeetsPath(H, key, depth, e1, s2, HashOf(H, e2))
    else if s2 == [] then Mirrored(EndMeetsPath(H, key, depth, e2, s1, HashOf(H, e1)))
    else
      var x, y := Step(H, key, s1, depth, HashOf(H, e1)), Step(H, key, s2, depth, HashOf(H, e2));
      if x != y then Collision(x, y)
      else
        StepInjective(H, key, depth, s1, HashOf(H, e1), s2, HashOf(H, e2));
        Extract(H, key, depth + 1, s1[1..], e1, s2[1..], e2)
  }

  function Mirrored(b: Break): Break {
    if b.Collision? then Collision(b.y, b.x) else b
  }

  /** Different ends with one hash. */
  function EndsCollide(H: Hasher, e1: Tree, e2: Tree): (b: Break)
    requires !e1.Node? && !e2.Node? && e1 != e2 && HashOf(H, e1) == HashOf(H, e2)
    ensures Genuine(H, b) && DrawnFrom(b, EndHashed(e1), EndHashed(e2))
  {
    match (e1, e2)
    case (Leaf(k1, v1), Leaf(k2, v2)) =>
      LeafBytesInjective(k1, v1, k2, v2);
      Collision(LeafBytes(k1, v1), LeafBytes(k2, v2))
    case (Leaf(k, v), Empty) => EmptyPreimage(LeafBytes(k, v))
    case (Empty, Leaf(k, v)) => EmptyPreimage(LeafBytes(k, v))
  }

  /** One path ends where the other goes on. */
  function EndMeetsPath(H: Hasher, key: Hash, depth: nat, e: Tree, s: seq<Hash>, h: Hash): (b: Break)
    requires !e.Node? && s != [] && InKey(depth, |s|)
    requires HashOf(H, e) == Fold(H, key, s, depth, h)
    ensures Genuine(H, b) && DrawnFrom(b, EndHashed(e), {Step(H, key, s, depth, h)})
  {
    var x := Step(H, key, s, depth, h);
    match e
    case Empty => EmptyPreimage(x)
    case Leaf(k, v) =>
      var below := Fold(H, key, s[1..], depth + 1, h);
      LeafIsNotInternal(k, v, s[0], below);
      LeafIsNotInternal(k, v, below, s[0]);
      Collision(LeafBytes(k, v), x)
  }

  lemma {:induction false} StepInjective(
    H: Hasher, key: Hash, depth: nat, s1: seq<Hash>, h1: Hash, s2: seq<Hash>, h2: Hash)
    requires s1 != [] && s2 != [] && InKey(depth, |s1|) && InKey(depth, |s2|)
    requires Step(H, key, s1, depth, h1) == Step(H, key, s2, depth, h2)
    ensures Fold(H, key, s1[1..], depth + 1, h1) == Fold(H, key, s2[1..], depth + 1, h2)
  {
    var b1, b2 := Fold(H, key, s1[1..], depth + 1, h1), Fold(H, key, s2[1..], depth + 1, h2);
    InternalBytesInjective(s1[0], b1, s2[0], b2);
    InternalBytesInjective(b1, s1[0], b2, s2[0]);
  }

  /** Two accepted proofs that give one key two different answers under one root break the hash
      function on what their verifiers hash. */
  function Conflict(
    H: Hasher, p: BmtProof, q: BmtProof, root: Hash, claim: Option<Hash>, claim': Option<Hash>, base: nat): (b: Break)
    requires p.key == q.key && claim != claim'
    requires Accepts(H, p, root, claim, base) && Accepts(H, q, root, claim', base)
    ensures Genuine(H, b) && DrawnFrom(b, ProofHashed(H, p, base), ProofHashed(H, q, base))
  {
    Extract(H, p.key, base, p.siblings, End(p), q.siblings, End(q))
  }

  /** Soundness against a tree: an accepted claim that differs from what the tree holds yields
      a violation of the hash function between what the proof and what the tree hashes. */
  function Forgery(H: Hasher, t: Tree, p: BmtProof, claim: Option<Hash>, base: nat): (b: Break)
    requires Placed(t, base) && Accepts(H, p, HashOf(H, t), claim, base)
    requires claim != if p.key in Contents(t) then Some(Contents(t)[p.key]) else None
    ensures Genuine(H, b) && DrawnFrom(b, ProofHashed(H, p, base), TreeHashed(H, t))
  {
    var answer := Lookup(t, p.key, base);
    ProveAccepted(H, t, p.key, base, answer);
    ProveHashed(H, t, p.key, base);
    Conflict(H, p, Prove(H, t, p.key, base), HashOf(H, t), claim, answer, base)
  }
}
