/** The sparse binary Merkle tree as a value: what the arena of `Sbmt` stands for.

    `Insert` and `Remove` follow the program's recursion, including the split that
    re-inserts the old leaf and the collapse after a delete.  `Canon` is the reference:
    the one tree that a key-to-value map has at a given depth.
 */
module MerkleTree {
  import opened Hashing

  datatype Tree =
    | Empty
    | Leaf(key: Hash, value: Hash)
    | Node(left: Tree, right: Tree)

  /** Root hash by plain recursion, without any caching. */
  function HashOf(H: Hasher, t: Tree): Hash {
    match t
    case Empty => EMPTY_HASH
    case Leaf(k, v) => HashLeaf(H, k, v)
    case Node(l, r) => HashInternal(H, HashOf(H, l), HashOf(H, r))
  }

  ghost function Contents(t: Tree): map<Hash, Hash> {
    match t
    case Empty => map[]
    case Leaf(k, v) => map[k := v]
    case Node(l, r) => Contents(l) + Contents(r)
  }

  ghost function LeafCount(t: Tree): nat {
    match t
    case Empty => 0
    case Leaf(_, _) => 1
    case Node(l, r) => LeafCount(l) + LeafCount(r)
  }

  ghost function InternalCount(t: Tree): nat {
    match t
    case Empty => 0
    case Leaf(_, _) => 0
    case Node(l, r) => 1 + InternalCount(l) + InternalCount(r)
  }

  ghost predicate OnSide(m: map<Hash, Hash>, depth: nat, right: bool)
    requires depth < KEY_BITS
  {
    forall k :: k in m ==> Bit(k, depth) == right
  }

  /** Every key sits on the side its bit selects, and no level reads past the last bit. */
  ghost predicate Placed(t: Tree, depth: nat) {
    t.Node? ==>
      && depth < KEY_BITS
      && Placed(t.left, depth + 1) && OnSide(Contents(t.left), depth, false)
      && Placed(t.right, depth + 1) && OnSide(Contents(t.right), depth, true)
  }

  /** Every internal node has at least two leaves below it. */
  ghost predicate Dense(t: Tree) {
    t.Node? ==> LeafCount(t) >= 2 && Dense(t.left) && Dense(t.right)
  }

  /** All keys of `m` share their first `depth` bits. */
  ghost predicate SharePrefix(m: map<Hash, Hash>, depth: nat) {
    forall a, b {:trigger AgreeOn(a, b, 0, depth)} :: a in m && b in m ==> AgreeOn(a, b, 0, depth)
  }

  /** `key` shares its first `depth` bits with every key of `m`. */
  ghost predicate Fits(m: map<Hash, Hash>, key: Hash, depth: nat) {
    forall a :: a in m ==> AgreeOn(a, key, 0, depth)
  }

  /** Levels left below `depth`. */
  function Levels(depth: nat): nat {
    if depth < KEY_BITS then KEY_BITS - depth else 0
  }

  // ------------------------------------------------------------------ insert

  /** `Sbmt::insert_at`.  A split makes the slot an empty internal node and inserts the old
      leaf and then the new one into it, at the same depth. */
  ghost function Insert(t: Tree, key: Hash, value: Hash, depth: nat): (t': Tree)
    requires Placed(t, depth) && Fits(Contents(t), key, depth)
    ensures Placed(t', depth)
    ensures Contents(t') == Contents(t)[key := value]
    ensures t.Node? ==> t'.Node?
    decreases Levels(depth), t.Leaf?
  {
    match t
    case Empty => Leaf(key, value)
    case Leaf(k, v) =>
      if k == key then Leaf(key, value)
      else
        SplitHasRoom(k, key, depth);
        assert Contents(Empty) == map[];
        Insert(Insert(Node(Empty, Empty), k, v, depth), key, value, depth)
    case Node(l, r) =>
      if Bit(key, depth) then
        FitsBelow(Contents(r), Contents(t), key, depth, true);
        UpdateInUnion(Contents(l), Contents(r), key, value);
        Node(l, Insert(r, key, value, depth + 1))
      else
        FitsBelow(Contents(l), Contents(t), key, depth, false);
        UpdateInUnion(Contents(l), Contents(r), key, value);
        Node(Insert(l, key, value, depth + 1), r)
  }

  lemma {:induction false} UpdateInUnion(a: map<Hash, Hash>, b: map<Hash, Hash>, key: Hash, value: Hash)
    ensures a + b[key := value] == (a + b)[key := value]
    ensures key !in b ==> a[key := value] + b == (a + b)[key := value]
  {
  }

  /** Two different keys that share the path so far still have a bit to split on. */
  lemma {:induction false} SplitHasRoom(a: Hash, b: Hash, depth: nat)
    requires a != b && AgreeOn(a, b, 0, depth)
    ensures depth < KEY_BITS
  {
    if depth >= KEY_BITS { BitsDetermineKey(a, b, depth); }
  }

  lemma {:induction false} FitsBelow(side: map<Hash, Hash>, m: map<Hash, Hash>, key: Hash, depth: nat, right: bool)
    requires depth < KEY_BITS && Fits(m, key, depth) && Bit(key, depth) == right
    requires OnSide(side, depth, right) && side.Keys <= m.Keys
    ensures Fits(side, key, depth + 1)
  {
  }

  lemma {:induction false} SharePrefixUpdate(m: map<Hash, Hash>, key: Hash, value: Hash, depth: nat)
    requires SharePrefix(m, depth) && Fits(m, key, depth)
    ensures SharePrefix(m[key := value], depth)
  {
  }

  lemma {:induction false} InsertCounts(t: Tree, key: Hash, value: Hash, depth: nat)
    requires Placed(t, depth) && Fits(Contents(t), key, depth)
    ensures LeafCount(Insert(t, key, value, depth)) == LeafCount(t) + if key in Contents(t) then 0 else 1
    decreases Levels(depth), t.Leaf?
  {
    match t
    case Empty =>
    case Leaf(k, v) =>
      if k != key {
        SplitHasRoom(k, key, depth);
        InsertCounts(Node(Empty, Empty), k, v, depth);
        InsertCounts(Insert(Node(Empty, Empty), k, v, depth), key, value, depth);
      }
    case Node(l, r) =>
      if Bit(key, depth) {
        FitsBelow(Contents(r), Contents(t), key, depth, true);
        InsertCounts(r, key, value, depth + 1);
      } else {
        FitsBelow(Contents(l), Contents(t), key, depth, false);
        InsertCounts(l, key, value, depth + 1);
      }
  }

  ghost function NodeCount(t: Tree): nat {
    LeafCount(t) + InternalCount(t)
  }

  /** An insertion never needs fewer nodes than there were. */
  lemma {:induction false} InsertGrows(t: Tree, key: Hash, value: Hash, depth: nat)
    requires Placed(t, depth) && Fits(Contents(t), key, depth)
    ensures NodeCount(Insert(t, key, value, depth)) >= NodeCount(t)
    decreases Levels(depth), t.Leaf?
  {
    match t
    case Empty =>
    case Leaf(k, v) =>
      if k != key {
        SplitHasRoom(k, key, depth);
        InsertGrows(Node(Empty, Empty), k, v, depth);
        InsertGrows(Insert(Node(Empty, Empty), k, v, depth), key, value, depth);
      }
    case Node(l, r) =>
      if Bit(key, depth) {
        FitsBelow(Contents(r), Contents(t), key, depth, true);
        InsertGrows(r, key, value, depth + 1);
      } else {
        FitsBelow(Contents(l), Contents(t), key, depth, false);
        InsertGrows(l, key, value, depth + 1);
      }
  }

  /** Halfway through a split, the slot holds the old leaf alone. */
  lemma {:induction false} FirstOfSplit(k: Hash, v: Hash, key: Hash, depth: nat)
    requires k != key && Fits(Contents(Leaf(k, v)), key, depth)
    ensures Placed(Node(Empty, Empty), depth) && Fits(Contents(Node(Empty, Empty)), k, depth)
    ensures
      var one := Insert(Node(Empty, Empty), k, v, depth);
      && one.Node? && Fits(Contents(one), key, depth) && key !in Contents(one)
      && Dense(one.left) && Dense(one.right) && LeafCount(one) == 1
  {
    assert k in Contents(Leaf(k, v));
    SplitHasRoom(k, key, depth);
    assert Contents(Empty) == map[];
    InsertCounts(Node(Empty, Empty), k, v, depth);
  }

  lemma {:induction false} InsertKeepsDense(t: Tree, key: Hash, value: Hash, depth: nat)
    requires Placed(t, depth) && Fits(Contents(t), key, depth)
    requires Dense(t) || (t.Node? && Dense(t.left) && Dense(t.right) && LeafCount(t) == 1 && key !in Contents(t))
    ensures Dense(Insert(t, key, value, depth))
    decreases Levels(depth), t.Leaf?
  {
    InsertCounts(t, key, value, depth);
    match t
    case Empty =>
    case Leaf(k, v) =>
      if k != key {
        FirstOfSplit(k, v, key, depth);
        InsertKeepsDense(Insert(Node(Empty, Empty), k, v, depth), key, value, depth);
      }
    case Node(l, r) =>
      if Bit(key, depth) {
        FitsBelow(Contents(r), Contents(t), key, depth, true);
        InsertKeepsDense(r, key, value, depth + 1);
      } else {
        FitsBelow(Contents(l), Contents(t), key, depth, false);
        InsertKeepsDense(l, key, value, depth + 1);
      }
  }

  // ------------------------------------------------------------------ remove

  /** `Sbmt::collapse`: an empty internal node vanishes, a lone leaf takes its parent's
      place, a lone internal child stays wrapped. */
  ghost function Collapse(l: Tree, r: Tree): (t: Tree)
    ensures Contents(t) == Contents(l) + Contents(r)
    ensures LeafCount(t) == LeafCount(l) + LeafCount(r)
  {
    if l.Empty? && r.Empty? then Empty
    else if l.Leaf? && r.Empty? then l
    else if l.Empty? && r.Leaf? then r
    else Node(l, r)
  }

  lemma {:induction false} CollapsePlaced(l: Tree, r: Tree, depth: nat)
    requires Placed(Node(l, r), depth)
    ensures Placed(Collapse(l, r), depth)
  {
  }

  lemma {:induction false} RemoveFromUnion(a: map<Hash, Hash>, b: map<Hash, Hash>, key: Hash)
    ensures key !in a ==> a + (b - {key}) == (a + b) - {key}
    ensures key !in b ==> (a - {key}) + b == (a + b) - {key}
  {
  }

  /** `Sbmt::remove_at`.  Any key may be asked for, whatever its prefix. */
  ghost function Remove(t: Tree, key: Hash, depth: nat): (t': Tree)
    requires Placed(t, depth)
    ensures Placed(t', depth)
    ensures Contents(t') == Contents(t) - {key}
  {
    match t
    case Empty => Empty
    case Leaf(k, _) => if k == key then Empty else t
    case Node(l, r) =>
      if Bit(key, depth) then
        var r' := Remove(r, key, depth + 1);
        RemovedRight(l, r, r', key, depth);
        Collapse(l, r')
      else
        var l' := Remove(l, key, depth + 1);
        RemovedLeft(l, r, l', key, depth);
        Collapse(l', r)
  }

  lemma {:induction false} RemovedRight(l: Tree, r: Tree, r': Tree, key: Hash, depth: nat)
    requires Placed(Node(l, r), depth) && Bit(key, depth)
    requires Placed(r', depth + 1) && Contents(r') == Contents(r) - {key}
    ensures Placed(Collapse(l, r'), depth) && Contents(Collapse(l, r')) == Contents(Node(l, r)) - {key}
  {
    RemoveFromUnion(Contents(l), Contents(r), key);
    assert Placed(Node(l, r'), depth);
    CollapsePlaced(l, r', depth);
  }

  lemma {:induction false} RemovedLeft(l: Tree, r: Tree, l': Tree, key: Hash, depth: nat)
    requires Placed(Node(l, r), depth) && !Bit(key, depth)
    requires Placed(l', depth + 1) && Contents(l') == Contents(l) - {key}
    ensures Placed(Collapse(l', r), depth) && Contents(Collapse(l', r)) == Contents(Node(l, r)) - {key}
  {
    RemoveFromUnion(Contents(l), Contents(r), key);
    assert Placed(Node(l', r), depth);
    CollapsePlaced(l', r, depth);
  }

  /** In a dense tree the shape is known from the number of leaves, when that is small. */
  lemma {:induction false} DenseShape(t: Tree)
    requires Dense(t)
    ensures t.Empty? <==> LeafCount(t) == 0
    ensures t.Leaf? <==> LeafCount(t) == 1
  {
  }

  lemma {:induction false} RemoveKeepsDense(t: Tree, key: Hash, depth: nat)
    requires Placed(t, depth) && Dense(t)
    ensures Dense(Remove(t, key, depth))
    ensures LeafCount(Remove(t, key, depth)) == LeafCount(t) - if key in Contents(t) then 1 else 0
  {
    match t
    case Empty =>
    case Leaf(_, _) =>
    case Node(l, r) =>
      if Bit(key, depth) {
        RemoveKeepsDense(r, key, depth + 1);
        DenseShape(Remove(r, key, depth + 1));
        DenseShape(l);
      } else {
        RemoveKeepsDense(l, key, depth + 1);
        DenseShape(Remove(l, key, depth + 1));
        DenseShape(r);
      }
  }

  lemma {:induction false} SharePrefixRemove(m: map<Hash, Hash>, key: Hash, depth: nat)
    requires SharePrefix(m, depth)
    ensures SharePrefix(m - {key}, depth)
  {
  }

  // ------------------------------------------------------------------ lookup

  /** `Sbmt::get`: follow the key's bits to a leaf and compare the whole key. */
  function Lookup(t: Tree, key: Hash, depth: nat): (found: Option<Hash>)
    requires Placed(t, depth)
    ensures found == if key in Contents(t) then Some(Contents(t)[key]) else None
  {
    match t
    case Empty => None
    case Leaf(k, v) => if k == key then Some(v) else None
    case Node(l, r) => if Bit(key, depth) then Lookup(r, key, depth + 1) else Lookup(l, key, depth + 1)
  }

  // --------------------------------------------------------- canonical trees

  ghost function Side(m: map<Hash, Hash>, depth: nat, right: bool): (r: map<Hash, Hash>)
    requires depth < KEY_BITS
  {
    map k | k in m && Bit(k, depth) == right :: m[k]
  }

  lemma {:induction false} SidesShare(m: map<Hash, Hash>, depth: nat)
    requires depth < KEY_BITS && SharePrefix(m, depth)
    ensures SharePrefix(Side(m, depth, false), depth + 1) && SharePrefix(Side(m, depth, true), depth + 1)
  {
    forall a: Hash, b: Hash | a in m && b in m && Bit(a, depth) == Bit(b, depth) ensures AgreeOn(a, b, 0, depth + 1) {
      assert AgreeOn(a, b, 0, depth);
    }
  }

  ghost function SomeKey(m: map<Hash, Hash>): (k: Hash)
    requires m != map[]
    ensures k in m
  {
    var k: Hash :| k in m.Keys;
    k
  }

  /** The tree of a map: empty, a lone leaf, or a split on the bit at this depth. */
  ghost function Canon(m: map<Hash, Hash>, depth: nat): Tree
    requires SharePrefix(m, depth)
    decreases Levels(depth)
  {
    if |m| == 0 then Empty
    else if |m| == 1 then var k := SomeKey(m); Leaf(k, m[k])
    else
      ManySplit(m, depth);
      Node(Canon(Side(m, depth, false), depth + 1), Canon(Side(m, depth, true), depth + 1))
  }

  /** Two keys with a common prefix part at some bit, so both sides are defined. */
  lemma {:induction false} ManySplit(m: map<Hash, Hash>, depth: nat)
    requires SharePrefix(m, depth) && |m| >= 2
    ensures depth < KEY_BITS
    ensures SharePrefix(Side(m, depth, false), depth + 1) && SharePrefix(Side(m, depth, true), depth + 1)
  {
    var k := SomeKey(m);
    assert m.Keys != {k} by { assert |m.Keys| >= 2; }
    var j :| j in m.Keys && j != k;
    SplitHasRoom(j, k, depth);
    SidesShare(m, depth);
  }

  /** A placed tree has as many leaves as keys. */
  lemma {:induction false} LeafCountIsSize(t: Tree, depth: nat)
    requires Placed(t, depth)
    ensures LeafCount(t) == |Contents(t)|
  {
    match t
    case Empty =>
    case Leaf(_, _) =>
    case Node(l, r) =>
      LeafCountIsSize(l, depth + 1);
      LeafCountIsSize(r, depth + 1);
      assert Contents(l).Keys !! Contents(r).Keys;
      assert |Contents(t).Keys| == |Contents(l).Keys| + |Contents(r).Keys| by {
        assert Contents(t).Keys == Contents(l).Keys + Contents(r).Keys;
      }
  }

  lemma {:induction false} SidesOfUnion(a: map<Hash, Hash>, b: map<Hash, Hash>, depth: nat)
    requires depth < KEY_BITS && OnSide(a, depth, false) && OnSide(b, depth, true)
    ensures Side(a + b, depth, false) == a && Side(a + b, depth, true) == b
  {
  }

  lemma {:induction false} UnionOfSides(m: map<Hash, Hash>, depth: nat)
    requires depth < KEY_BITS
    ensures Side(m, depth, false) + Side(m, depth, true) == m
    ensures OnSide(Side(m, depth, false), depth, false) && OnSide(Side(m, depth, true), depth, true)
  {
  }

  /** Every dense, placed tree is the canonical tree of its contents, so two such trees with
      the same contents are the same tree, however they were built. */
  lemma {:induction false} DenseIsCanonical(t: Tree, depth: nat)
    requires Placed(t, depth) && Dense(t) && SharePrefix(Contents(t), depth)
    ensures t == Canon(Contents(t), depth)
  {
    LeafCountIsSize(t, depth);
    match t
    case Empty =>
    case Leaf(_, _) =>
    case Node(l, r) =>
      SidesOfUnion(Contents(l), Contents(r), depth);
      SidesShare(Contents(t), depth);
      DenseIsCanonical(l, depth + 1);
      DenseIsCanonical(r, depth + 1);
  }

  lemma {:induction false} CanonicalHash(H: Hasher, t: Tree, depth: nat)
    requires Placed(t, depth) && Dense(t) && SharePrefix(Contents(t), depth)
    ensures HashOf(H, t) == HashOf(H, Canon(Contents(t), depth))
  {
    DenseIsCanonical(t, depth);
  }

  // ------------------------------------------------------------- root as bytes

  /** The keys whose bit at `depth` is `bit`, counting bits from the most significant of byte 0. */
  ghost function WithBit(m: map<Hash, Hash>, depth: nat, bit: nat): map<Hash, Hash>
    requires depth < 256
  {
    map k: Hash | k in m && k[depth / 8] / BIT_WEIGHTS[depth % 8] % 2 == bit :: m[k]
  }

  /** The root of a map, as bytes to hash: nothing, one leaf, or the roots of the keys with bit 0 and
      of those with bit 1 at this depth. */
  ghost function RootOf(H: Hasher, m: map<Hash, Hash>, depth: nat): Hash
    requires SharePrefix(m, depth)
    decreases Levels(depth)
  {
    if |m| == 0 then seq(32, _ => 0)
    else if |m| == 1 then var k := SomeKey(m); H([0] + k + m[k])
    else
      ManySplit(m, depth);
      SidesByWeight(m, depth);
      H([1] + RootOf(H, WithBit(m, depth, 0), depth + 1) + RootOf(H, WithBit(m, depth, 1), depth + 1))
  }

  lemma {:induction false} SidesByWeight(m: map<Hash, Hash>, depth: nat)
    requires depth < KEY_BITS
    ensures WithBit(m, depth, 0) == Side(m, depth, false) && WithBit(m, depth, 1) == Side(m, depth, true)
  {
    forall k: Hash ensures Bit(k, depth) <==> k[depth / 8] / BIT_WEIGHTS[depth % 8] % 2 == 1 { BitByWeight(k, depth); }
  }

  /** The canonical tree hashes to it. */
  lemma {:induction false} RootExactly(H: Hasher, m: map<Hash, Hash>, depth: nat)
    requires SharePrefix(m, depth)
    ensures HashOf(H, Canon(m, depth)) == RootOf(H, m, depth)
    decreases Levels(depth)
  {
    if |m| == 0 {
      assert EMPTY_HASH == seq(32, _ => 0);
    } else if |m| >= 2 {
      ManySplit(m, depth);
      SidesByWeight(m, depth);
      RootExactly(H, Side(m, depth, false), depth + 1);
      RootExactly(H, Side(m, depth, true), depth + 1);
    }
  }

  ghost predicate Holds(t: Tree, m: map<Hash, Hash>, depth: nat) {
    Placed(t, depth) && Dense(t) && Contents(t) == m
  }

  /** Conversely the canonical tree holds exactly the map and is dense and placed. */
  lemma {:induction false} CanonHolds(m: map<Hash, Hash>, depth: nat)
    requires SharePrefix(m, depth)
    ensures Holds(Canon(m, depth), m, depth)
    decreases Levels(depth)
  {
    if |m| >= 2 {
      ManySplit(m, depth);
      var a, b := Side(m, depth, false), Side(m, depth, true);
      var l, r := Canon(a, depth + 1), Canon(b, depth + 1);
      assert Holds(l, a, depth + 1) by { CanonHolds(a, depth + 1); }
      assert Holds(r, b, depth + 1) by { CanonHolds(b, depth + 1); }
      SidesHold(m, depth, l, r);
    } else if |m| == 1 {
      OneKeyHolds(m, SomeKey(m), depth);
    }
  }

  lemma {:induction false} OneKeyHolds(m: map<Hash, Hash>, k: Hash, depth: nat)
    requires |m| == 1 && k in m
    ensures Holds(Leaf(k, m[k]), m, depth)
  {
    assert m == map[k := m[k]] by {
      forall j | j in m ensures j == k {
        if j != k { SubsetSize({j, k}, m.Keys); }
      }
    }
  }

  /** A node over trees for the two sides of a map with two keys or more. */
  lemma {:induction false} SidesHold(m: map<Hash, Hash>, depth: nat, l: Tree, r: Tree)
    requires depth < KEY_BITS && |m| >= 2
    ensures Holds(l, Side(m, depth, false), depth + 1) && Holds(r, Side(m, depth, true), depth + 1) ==>
              Holds(Node(l, r), m, depth)
  {
    if Holds(l, Side(m, depth, false), depth + 1) && Holds(r, Side(m, depth, true), depth + 1) {
      UnionOfSides(m, depth);
      LeafCountIsSize(Node(l, r), depth);
    }
  }

  lemma {:induction false} SubsetSize<T>(a: set<T>, b: set<T>)
    requires a <= b
    ensures |a| <= |b|
  {
    assert b == a + (b - a);
  }

  /** Joining `n` leaves takes at least `n - 1` internal nodes. */
  lemma {:induction false} InternalsBound(t: Tree)
    ensures LeafCount(t) <= InternalCount(t) + 1
  {
    match t
    case Empty =>
    case Leaf(_, _) =>
    case Node(l, r) =>
      InternalsBound(l);
      InternalsBound(r);
  }
}
