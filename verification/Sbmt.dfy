/** `Sbmt`: the sparse binary Merkle tree over a recycled node arena. */
module Sbmt {
  import opened Hashing
  import opened MerkleTree
  import opened Arena
  import BmtProof

  /** One batch entry: a raw value to store, or `None` to delete. */
  type Entry = (Hash, Option<seq<byte>>)

  ghost function ApplyOne(H: Hasher, m: map<Hash, Hash>, e: Entry): map<Hash, Hash> {
    if e.1.Some? then m[e.0 := HashValue(H, e.1.value)] else m - {e.0}
  }

  /** The map that a batch leads to. */
  ghost function ApplyAll(H: Hasher, m: map<Hash, Hash>, es: seq<Entry>): map<Hash, Hash> {
    if es == [] then m else ApplyOne(H, ApplyAll(H, m, es[..|es| - 1]), es[|es| - 1])
  }

  /** After every store of a batch the tree fits into an arena. */
  ghost predicate BatchFits(H: Hasher, m: map<Hash, Hash>, es: seq<Entry>, depth: nat) {
    forall i :: 0 <= i < |es| && es[i].1.Some? ==> FitsArena(ApplyOne(H, ApplyAll(H, m, es[..i]), es[i]), depth)
  }

  lemma {:induction false} BatchStep(H: Hasher, m: map<Hash, Hash>, es: seq<Entry>, i: nat, depth: nat)
    requires i < |es| && BatchFits(H, m, es, depth)
    ensures ApplyAll(H, m, es[..i + 1]) == ApplyOne(H, ApplyAll(H, m, es[..i]), es[i])
    ensures es[i].1.Some? ==> FitsArena(ApplyOne(H, ApplyAll(H, m, es[..i]), es[i]), depth)
  {
    assert es[..i + 1][..i] == es[..i];
  }

  /** Inserting into the tree of a map gives the tree of the updated map, which fits. */
  lemma {:induction false} InsertFits(t: Tree, key: Hash, value: Hash, depth: nat)
    requires Placed(t, depth) && Dense(t) && SharePrefix(Contents(t), depth)
    requires FitsArena(Contents(t)[key := value], depth)
    ensures Fits(Contents(t), key, depth)
    ensures NodeCount(MerkleTree.Insert(t, key, value, depth)) <= NIL
  {
    forall a | a in Contents(t) ensures AgreeOn(a, key, 0, depth) {
      assert a in Contents(t)[key := value];
    }
    var t' := MerkleTree.Insert(t, key, value, depth);
    var fits :| TreeFits(fits, Contents(t)[key := value], depth);
    assert t' == fits by {
      InsertKeepsDense(t, key, value, depth);
      DenseIsCanonical(t', depth);
      DenseIsCanonical(fits, depth);
    }
  }

  /** What an insertion at the root may count on. */
  lemma {:induction false} RootRoom(nodes: seq<Slot>, free: seq<nat>, s: Shape, key: Hash, value: Hash, depth: nat)
    requires AllOwned(nodes, free, s)
    requires Placed(TreeOf(s), depth) && Dense(TreeOf(s)) && SharePrefix(Contents(TreeOf(s)), depth)
    requires FitsArena(Contents(TreeOf(s))[key := value], depth)
    ensures Fits(Contents(TreeOf(s)), key, depth)
    ensures |nodes| - |free| + Gain(TreeOf(s), key, value, depth) <= NIL
  {
    AllOwnedCount(nodes, free, s);
    InsertFits(TreeOf(s), key, value, depth);
  }

  /** A split first takes one slot for the old leaf, and then what the new key still needs. */
  lemma {:induction false} SplitGain(key: Hash, value: Hash, depth: nat, k: Hash, v: Hash)
    requires k != key && Fits(map[k := v], key, depth) && depth < KEY_BITS
    ensures Contents(Node(Empty, Empty)) == map[] && Contents(Leaf(k, v)) == map[k := v]
    ensures
      var one := MerkleTree.Insert(Node(Empty, Empty), k, v, depth);
      && Contents(one) == map[k := v] && Gain(Node(Empty, Empty), k, v, depth) == 1
      && Gain(one, key, value, depth) >= 0
      && Gain(Leaf(k, v), key, value, depth) == 1 + Gain(one, key, value, depth)
  {
    assert Contents(Empty) == map[] && Contents(Node(Empty, Empty)) == map[];
    var one := MerkleTree.Insert(Node(Empty, Empty), k, v, depth);
    assert MerkleTree.Insert(Empty, k, v, depth + 1) == Leaf(k, v);
    assert one == if Bit(k, depth) then Node(Empty, Leaf(k, v)) else Node(Leaf(k, v), Empty);
    assert Contents(one) == map[k := v];
    assert NodeCount(Empty) == 0 && NodeCount(Leaf(k, v)) == 1;
    assert NodeCount(one) == 2 && NodeCount(Node(Empty, Empty)) == 1;
    InsertGrows(one, key, value, depth);
  }

  /** What `node_stats` reports. */
  datatype NodeStats = NodeStats(internalNodes: nat, leafNodes: nat, serializedBytes: nat)

  class Sbmt {
    /** The hash function in use. */
    const H: Hasher
    /** The bit the tree starts branching at. */
    const baseDepth: nat
    /** Flat node arena. */
    var nodes: seq<Slot>
    /** Recycled slots. */
    var free: seq<nat>
    var root: nat
    var len: nat
    /** What the arena holds below `root`. */
    ghost var shape: Shape

    ghost function Content(): map<Hash, Hash>
      reads this
    {
      Contents(TreeOf(shape))
    }

    ghost predicate Valid()
      reads this
    {
      && |nodes| <= NIL
      && Stored(H, nodes, shape) && root == Index(shape)
      && AllOwned(nodes, free, shape)
      && Placed(TreeOf(shape), baseDepth) && Dense(TreeOf(shape))
      && SharePrefix(Content(), baseDepth)
      && len == LeafCount(TreeOf(shape))
    }

    constructor (hasher: Hasher, base: nat)
      ensures Valid() && H == hasher && baseDepth == base
      ensures Content() == map[] && nodes == []
    {
      H := hasher;
      baseDepth := base;
      nodes := [];
      free := [];
      root := NIL;
      len := 0;
      shape := Nothing;
    }

    // ------------------------------------------------------------- arena

    method Alloc(node: Slot) returns (i: nat)
      requires FreeListOk(nodes, free, {}) && |nodes| <= NIL && (free == [] ==> |nodes| < NIL)
      modifies this`nodes, this`free
      ensures i < |nodes| && nodes[i] == node
      ensures FreeListOk(nodes, free, {i})
      ensures {i} + Elements(free) == old(Elements(free)) + Range(old(|nodes|), |nodes|)
      ensures old(|nodes|) <= |nodes| <= NIL
      ensures forall j :: 0 <= j < old(|nodes|) && j !in old(Elements(free)) ==> nodes[j] == old(nodes[j])
    {
      if |free| > 0 {
        i := free[|free| - 1];
        assert i in free;
        free := free[..|free| - 1];
        nodes := nodes[i := node];
        assert old(free) == free + [i];
        assert forall j :: j in free ==> j in old(free);
        assert Range(old(|nodes|), |nodes|) == {};
      } else {
        i := |nodes| % 0x1_0000_0000;
        nodes := nodes + [node];
        assert Range(old(|nodes|), |nodes|) == {i};
      }
    }

    /** What every branch of `insert_at` demands. */
    ghost predicate CanInsert(key: Hash, value: Hash, depth: nat, s: Shape)
      reads this
    {
      && Stored(H, nodes, s) && Apart(s)
      && FreeListOk(nodes, free, Slots(s))
      && Placed(TreeOf(s), depth) && Fits(Contents(TreeOf(s)), key, depth)
      && |nodes| <= NIL && |nodes| - |free| + Gain(TreeOf(s), key, value, depth) <= NIL
    }

    /** `insert_at`: insert below `slot` and return the slot to link to. */
    method InsertAt(slot: nat, key: Hash, value: Hash, depth: nat, ghost s: Shape)
      returns (link: nat, added: bool, ghost s': Shape)
      requires CanInsert(key, value, depth, s) && slot == Index(s)
      modifies this`nodes, this`free
      ensures Stored(H, nodes, s') && Apart(s') && link == Index(s')
      ensures TreeOf(s') == MerkleTree.Insert(TreeOf(s), key, value, depth)
      ensures added == (key !in Contents(TreeOf(s)))
      ensures s.Fork? ==> link == slot
      ensures Update(old(nodes), old(free), s, nodes, free, s')
      ensures |nodes| <= NIL
      decreases Levels(depth), s.One?, 1
    {
      StoredBounds(H, nodes, s);
      if slot == NIL {
        link := Alloc(LeafSlot(key, value));
        added, s' := true, One(link, key, value);
      } else if nodes[slot].LeafSlot? {
        if nodes[slot].key == key {
          nodes := nodes[slot := LeafSlot(key, value)];
          link, added, s' := slot, false, One(slot, key, value);
          assert Range(|nodes|, |nodes|) == {};
        } else {
          s' := Split(slot, key, value, depth, s);
          link, added := slot, true;
        }
      } else {
        added, s' := Descend(slot, key, value, depth, s);
        link := slot;
      }
    }

    /** The split of `insert_at`: the leaf's slot becomes an internal node, which then takes
        the old leaf and the new key in turn. */
    method Split(slot: nat, key: Hash, value: Hash, depth: nat, ghost s: Shape)
      returns (ghost s': Shape)
      requires CanInsert(key, value, depth, s) && s.One? && s.slot == slot && s.key != key
      modifies this`nodes, this`free
      ensures Stored(H, nodes, s') && Apart(s') && slot == Index(s')
      ensures TreeOf(s') == MerkleTree.Insert(TreeOf(s), key, value, depth)
      ensures Update(old(nodes), old(free), s, nodes, free, s')
      ensures |nodes| <= NIL
      decreases Levels(depth), true, 0
    {
      SplitHasRoom(s.key, key, depth);
      var k, v := nodes[slot].key, nodes[slot].value;
      ghost var fork := Fork(slot, Nothing, Nothing);
      nodes := nodes[slot := InternalSlot(NIL, NIL, None)];
      ghost var n0 := nodes;
      assert Contents(TreeOf(fork)) == map[];
      SplitGain(key, value, depth, k, v);
      var _, _, s1 := InsertAt(slot, k, v, depth, fork);
      ghost var n1, f1 := nodes, free;
      UpdateCount(n0, old(free), fork, n1, f1, s1);
      var _, _, s2 := InsertAt(slot, key, value, depth, s1);
      s' := s2;
      UpdateTrans(n0, old(free), fork, n1, f1, s1, nodes, free, s2);
      UpdateRewrite(old(nodes), old(free), slot, n0[slot], s, fork, nodes, free, s2);
    }

    /** The internal-node case of `insert_at`: drop the cached hash, insert into the child the
        key selects, and write the child's link back. */
    method Descend(slot: nat, key: Hash, value: Hash, depth: nat, ghost s: Shape)
      returns (added: bool, ghost s': Shape)
      requires CanInsert(key, value, depth, s) && s.Fork? && s.slot == slot
      modifies this`nodes, this`free
      ensures Stored(H, nodes, s') && Apart(s') && slot == Index(s')
      ensures TreeOf(s') == MerkleTree.Insert(TreeOf(s), key, value, depth)
      ensures added == (key !in Contents(TreeOf(s)))
      ensures Update(old(nodes), old(free), s, nodes, free, s')
      ensures |nodes| <= NIL
      decreases Levels(depth), false, 0
    {
      StoredDropCache(H, nodes, s);
      nodes := nodes[slot := nodes[slot].(cache := None)];
      ghost var n0 := nodes;
      var right := Bit(key, depth);
      var below := if right then nodes[slot].right else nodes[slot].left;
      InsertInFork(s, key, value, depth, Nothing);
      var child, grew, s1 := InsertAt(below, key, value, depth + 1, Child(s, right));
      InsertInFork(s, key, value, depth, s1);
      UpdateFork(H, n0, old(free), s, right, nodes, free, s1);
      nodes := nodes[slot := if right then nodes[slot].(right := child) else nodes[slot].(left := child)];
      added, s' := grew, WithChild(s, right, s1);
      UpdateRewrite(old(nodes), old(free), slot, n0[slot], s, s, nodes, free, s');
    }

    /** `remove_at`: remove below `slot` and return the slot to link to. */
    method RemoveAt(slot: nat, key: Hash, depth: nat, ghost s: Shape)
      returns (link: nat, removed: bool, ghost s': Shape)
      requires Stored(H, nodes, s) && Apart(s) && slot == Index(s)
      requires FreeListOk(nodes, free, Slots(s)) && |nodes| <= NIL
      requires Placed(TreeOf(s), depth)
      modifies this`nodes, this`free
      ensures Stored(H, nodes, s') && Apart(s') && link == Index(s')
      ensures TreeOf(s') == MerkleTree.Remove(TreeOf(s), key, depth)
      ensures removed == (key in Contents(TreeOf(s)))
      ensures Update(old(nodes), old(free), s, nodes, free, s') && |nodes| == old(|nodes|)
      decreases s
    {
      StoredBounds(H, nodes, s);
      assert Range(|nodes|, |nodes|) == {};
      if slot == NIL {
        link, removed, s' := NIL, false, s;
      } else if nodes[slot].LeafSlot? {
        if nodes[slot].key == key {
          FreeSlot(slot, s);
          link, removed, s' := NIL, true, Nothing;
        } else {
          link, removed, s' := slot, false, s;
        }
      } else {
        var right := Bit(key, depth);
        var below := if right then nodes[slot].right else nodes[slot].left;
        RemoveInFork(s, key, depth, Nothing);
        var child, gone, s1 := RemoveAt(below, key, depth + 1, Child(s, right));
        RemoveInFork(s, key, depth, s1);
        UpdateFork(H, old(nodes), old(free), s, right, nodes, free, s1);
        nodes := nodes[slot := WithLink(nodes[slot], right, child)];
        ghost var n1, f1, fork := nodes, free, WithChild(s, right, s1);
        link, s' := Collapse(slot, nodes[slot].left, nodes[slot].right, fork);
        removed := gone;
        UpdateTrans(old(nodes), old(free), s, n1, f1, fork, nodes, free, s');
      }
    }

    /** `free_slot` for the slot on top of `s`. */
    method FreeSlot(idx: nat, ghost s: Shape)
      requires !s.Nothing? && idx == s.slot && idx < |nodes|
      requires FreeListOk(nodes, free, Slots(s))
      modifies this`free
      ensures free == old(free) + [idx]
      ensures Elements(free) == old(Elements(free)) + {idx}
      ensures FreeListOk(nodes, free, Slots(s) - {idx})
    {
      assert idx in Slots(s);
      free := free + [idx];
    }

    /** `collapse`: free an internal slot that has no child, or only a leaf. */
    method Collapse(slot: nat, left: nat, right: nat, ghost s: Shape) returns (link: nat, ghost s': Shape)
      requires Stored(H, nodes, s) && Apart(s) && s.Fork? && slot == s.slot
      requires left == Index(s.left) && right == Index(s.right)
      requires FreeListOk(nodes, free, Slots(s)) && |nodes| <= NIL
      modifies this`free
      ensures Stored(H, nodes, s') && Apart(s') && link == Index(s')
      ensures TreeOf(s') == MerkleTree.Collapse(TreeOf(s.left), TreeOf(s.right))
      ensures Update(nodes, old(free), s, nodes, free, s')
    {
      StoredBounds(H, nodes, s);
      assert Range(|nodes|, |nodes|) == {};
      var leftLeaf := left != NIL && nodes[left].LeafSlot?;
      var rightLeaf := right != NIL && nodes[right].LeafSlot?;
      if left == NIL && right == NIL {
        FreeSlot(slot, s);
        link, s' := NIL, Nothing;
      } else if right == NIL && leftLeaf {
        FreeSlot(slot, s);
        link, s' := left, s.left;
      } else if left == NIL && rightLeaf {
        FreeSlot(slot, s);
        link, s' := right, s.right;
      } else {
        link, s' := slot, s;
      }
    }

    // --------------------------------------------------------------- hashes

    /** `node_hash`: the memoizing hash walk.  It returns the uncached recursive hash, and
        writes nothing but hashes of the slots it was asked about. */
    method NodeHash(idx: nat, ghost s: Shape) returns (h: Hash)
      requires Stored(H, nodes, s) && Apart(s) && idx == Index(s) && |nodes| <= NIL
      modifies this`nodes
      ensures h == HashOf(H, TreeOf(s))
      ensures Stored(H, nodes, s) && |nodes| == old(|nodes|)
      ensures forall i :: 0 <= i < |nodes| && i !in Slots(s) ==> nodes[i] == old(nodes[i])
      decreases s
    {
      StoredBounds(H, nodes, s);
      if idx == NIL {
        return EMPTY_HASH;
      }
      match nodes[idx]
      case LeafSlot(key, value) =>
        h := HashLeaf(H, key, value);
      case InternalSlot(left, right, cache) =>
        if cache.Some? {
          return cache.value;
        }
        var l := NodeHash(left, s.left);
        StoredFrame(H, old(nodes), nodes, s.right);
        ghost var n1 := nodes;
        var r := NodeHash(right, s.right);
        StoredFrame(H, n1, nodes, s.left);
        ghost var n2 := nodes;
        h := HashInternal(H, l, r);
        nodes := nodes[idx := nodes[idx].(cache := Some(h))];
        StoredFrame(H, n2, nodes, s.left);
        StoredFrame(H, n2, nodes, s.right);
    }

    /** `root_hash`: a function of the key-to-value map and the base depth alone, whatever
        sequence of operations led here. */
    method RootHash() returns (h: Hash)
      requires Valid()
      modifies this`nodes
      ensures Valid()
      ensures h == HashOf(H, Canon(Content(), baseDepth)) == RootOf(H, Content(), baseDepth)
      ensures |nodes| == old(|nodes|)
    {
      h := NodeHash(root, shape);
      CanonicalHash(H, TreeOf(shape), baseDepth);
      RootExactly(H, Content(), baseDepth);
    }

    // ----------------------------------------------------------- operations

    /** `insert_hashed`: the tree of the updated map has to fit into the arena. */
    method InsertHashed(key: Hash, value: Hash)
      requires Valid() && FitsArena(Content()[key := value], baseDepth)
      modifies this
      ensures Valid()
      ensures Content() == old(Content())[key := value]
    {
      RootRoom(nodes, free, shape, key, value, baseDepth);
      InsertRoot(key, value);
    }

    method InsertRoot(key: Hash, value: Hash)
      requires Valid() && Fits(Content(), key, baseDepth)
      requires |nodes| - |free| + Gain(TreeOf(shape), key, value, baseDepth) <= NIL
      modifies this
      ensures Valid()
      ensures Content() == old(Content())[key := value]
    {
      AllOwnedFree(nodes, free, shape);
      InsertCounts(TreeOf(shape), key, value, baseDepth);
      InsertKeepsDense(TreeOf(shape), key, value, baseDepth);
      SharePrefixUpdate(Content(), key, value, baseDepth);
      var link, added, s := InsertAt(root, key, value, baseDepth, shape);
      AllOwnedUpdate(old(nodes), old(free), shape, nodes, free, s);
      if added {
        len := len + 1;
      }
      root := link;
      shape := s;
    }

    /** `insert`: store a raw value under its hash. */
    method Insert(key: Hash, value: seq<byte>)
      requires Valid() && FitsArena(Content()[key := HashValue(H, value)], baseDepth)
      modifies this
      ensures Valid()
      ensures Content() == old(Content())[key := HashValue(H, value)]
    {
      InsertHashed(key, HashValue(H, value));
    }

    /** `remove`: any key may be asked for. */
    method Remove(key: Hash) returns (removed: bool)
      requires Valid()
      modifies this
      ensures Valid()
      ensures removed == (key in old(Content()))
      ensures Content() == old(Content()) - {key}
    {
      AllOwnedFree(nodes, free, shape);
      RemoveKeepsDense(TreeOf(shape), key, baseDepth);
      SharePrefixRemove(Content(), key, baseDepth);
      var link, gone, s := RemoveAt(root, key, baseDepth, shape);
      AllOwnedUpdate(old(nodes), old(free), shape, nodes, free, s);
      if gone {
        len := len - 1;
      }
      root := link;
      shape := s;
      removed := gone;
    }

    /** One entry of a batch. */
    method ApplyEntry(entry: Entry)
      requires Valid() && (entry.1.Some? ==> FitsArena(ApplyOne(H, Content(), entry), baseDepth))
      modifies this
      ensures Valid() && Content() == ApplyOne(H, old(Content()), entry)
    {
      var (key, value) := entry;
      if value.Some? {
        Insert(key, value.value);
      } else {
        var _ := Remove(key);
      }
    }

    /** `apply_batch`: deletes and stores in order, later entries winning. */
    method ApplyBatch(updates: seq<Entry>)
      requires Valid() && BatchFits(H, Content(), updates, baseDepth)
      modifies this
      ensures Valid()
      ensures Content() == ApplyAll(H, old(Content()), updates)
    {
      ghost var before := Content();
      for i := 0 to |updates|
        invariant Valid() && Content() == ApplyAll(H, before, updates[..i])
      {
        BatchStep(H, before, updates, i, baseDepth);
        ApplyEntry(updates[i]);
      }
      assert updates[..|updates|] == updates;
    }

    /** `get`. */
    method Get(key: Hash) returns (found: Option<Hash>)
      requires Valid()
      ensures found == if key in Content() then Some(Content()[key]) else None
    {
      var idx, depth := root, baseDepth;
      ghost var s := shape;
      while true
        invariant Within(s, shape) && idx == Index(s)
        invariant Placed(TreeOf(s), depth)
        invariant Lookup(TreeOf(s), key, depth) == Lookup(TreeOf(shape), key, baseDepth)
        decreases s
      {
        WithinStored(H, nodes, s, shape);
        if idx == NIL {
          return None;
        }
        match nodes[idx]
        case LeafSlot(k, v) =>
          return if k == key then Some(v) else None;
        case InternalSlot(left, right, _) =>
          var side := Bit(key, depth);
          WithinTrans(Child(s, side), s, shape);
          idx := if side then right else left;
          s := Child(s, side);
          depth := depth + 1;
      }
    }

    /** The hash of a part of the tree. */
    method HashWithin(idx: nat, ghost part: Shape) returns (h: Hash)
      requires Stored(H, nodes, shape) && Apart(shape) && |nodes| <= NIL
      requires Within(part, shape) && idx == Index(part)
      modifies this`nodes
      ensures h == HashOf(H, TreeOf(part)) && Stored(H, nodes, shape) && |nodes| == old(|nodes|)
    {
      WithinStored(H, nodes, part, shape);
      WithinSlots(part, shape);
      h := NodeHash(idx, part);
      StoredGraft(H, old(nodes), nodes, part, shape);
    }

    /** `prove`: walks to the end of the key's path, hashing each sibling on the way. */
    method WalkPath(key: Hash) returns (p: BmtProof.BmtProof)
      requires Valid()
      modifies this`nodes
      ensures Stored(H, nodes, shape) && |nodes| == old(|nodes|)
      ensures p == BmtProof.Prove(H, TreeOf(shape), key, baseDepth)
    {
      ghost var honest := BmtProof.Prove(H, TreeOf(shape), key, baseDepth);
      var siblings: seq<Hash>, idx, depth := [], root, baseDepth;
      ghost var s := shape;
      while true
        invariant Within(s, shape) && idx == Index(s) && |nodes| == old(|nodes|)
        invariant Placed(TreeOf(s), depth) && Stored(H, nodes, shape)
        invariant BmtProof.Extend(siblings, BmtProof.Prove(H, TreeOf(s), key, depth)) == honest
        decreases s
      {
        WithinStored(H, nodes, s, shape);
        StoredBounds(H, nodes, s);
        if idx == NIL {
          return BmtProof.BmtProof(key, None, siblings, None);
        }
        match nodes[idx]
        case LeafSlot(k, v) =>
          if k == key {
            return BmtProof.BmtProof(key, Some(v), siblings, None);
          } else {
            return BmtProof.BmtProof(key, None, siblings, Some((k, v)));
          }
        case InternalSlot(left, right, _) =>
          var side := Bit(key, depth);
          ghost var next, other := Child(s, side), Child(s, !side);
          WithinTrans(next, s, shape);
          WithinTrans(other, s, shape);
          var h := HashWithin(if side then left else right, other);
          BmtProof.ExtendStep(H, TreeOf(s), key, depth, siblings);
          siblings := siblings + [h];
          idx := if side then right else left;
          s, depth := next, depth + 1;
      }
    }

    /** The result of `prove` is accepted for the current root with exactly `get(key)`,
        provided the base depth is one that the verifier accepts at all; an occupying leaf is a
        live entry. */
    method Prove(key: Hash) returns (p: BmtProof.BmtProof)
      requires Valid()
      modifies this`nodes
      ensures Valid() && |nodes| == old(|nodes|)
      ensures p.key == key && p.valueHash == (if key in Content() then Some(Content()[key]) else None)
      ensures BmtProof.Accepts(H, p, HashOf(H, Canon(Content(), baseDepth)), p.valueHash, baseDepth)
              <==> baseDepth <= KEY_BITS
      ensures |p.siblings| <= Levels(baseDepth)
      ensures p.otherLeaf.Some? ==>
                p.otherLeaf.value.0 in Content() && p.otherLeaf.value.1 == Content()[p.otherLeaf.value.0]
    {
      p := WalkPath(key);
      BmtProof.ProveAnswers(H, TreeOf(shape), key, baseDepth);
      BmtProof.ProveAccepted(H, TreeOf(shape), key, baseDepth, p.valueHash);
      DenseIsCanonical(TreeOf(shape), baseDepth);
    }

    // ------------------------------------------------------------ accounting

    method CollectStats(idx: nat, stats: NodeStats, ghost s: Shape) returns (stats': NodeStats)
      requires Stored(H, nodes, s) && idx == Index(s) && |nodes| <= NIL
      ensures stats'.internalNodes == stats.internalNodes + InternalCount(TreeOf(s))
      ensures stats'.leafNodes == stats.leafNodes + LeafCount(TreeOf(s))
      ensures stats'.serializedBytes ==
                stats.serializedBytes + 96 * InternalCount(TreeOf(s)) + 64 * LeafCount(TreeOf(s))
      decreases s
    {
      StoredBounds(H, nodes, s);
      if idx == NIL {
        return stats;
      }
      match nodes[idx]
      case LeafSlot(_, _) =>
        stats' := stats.(leafNodes := stats.leafNodes + 1, serializedBytes := stats.serializedBytes + (32 + 32));
      case InternalSlot(l, r, _) =>
        stats' := stats.(internalNodes := stats.internalNodes + 1,
                         serializedBytes := stats.serializedBytes + (32 + 64));
        stats' := CollectStats(l, stats', s.left);
        stats' := CollectStats(r, stats', s.right);
    }

    /** `node_stats`: one leaf per key, enough internal nodes to join them, and no slot of the
        arena that is neither live nor free. */
    method Stats() returns (stats: NodeStats)
      requires Valid()
      ensures stats.leafNodes == len == |Content()|
      ensures stats.leafNodes <= stats.internalNodes + 1
      ensures stats.serializedBytes == 96 * stats.internalNodes + 64 * stats.leafNodes
      ensures stats.internalNodes + stats.leafNodes + |free| == |nodes|
    {
      LeafCountIsSize(TreeOf(shape), baseDepth);
      InternalsBound(TreeOf(shape));
      AllOwnedCount(nodes, free, shape);
      stats := CollectStats(root, NodeStats(0, 0, 0), shape);
    }
  }

  /** Cache coherence: below the root, a cached hash is the hash of the subtree stored there
      now. */
  lemma {:induction false} CachesCoherent(t: Sbmt, part: Shape)
    requires t.Valid() && Within(part, t.shape) && part.Fork?
    ensures part.slot < |t.nodes| && t.nodes[part.slot].InternalSlot?
    ensures t.nodes[part.slot].cache.Some? ==> t.nodes[part.slot].cache.value == HashOf(t.H, TreeOf(part))
  {
    WithinStored(t.H, t.nodes, part, t.shape);
  }

  /** History independence: two trees that hold the same map have the same shape and root,
      whatever was inserted, updated or removed on the way, and however their arenas differ. */
  lemma {:induction false} SameContentSameTree(a: Sbmt, b: Sbmt)
    requires a.Valid() && b.Valid() && a.H == b.H && a.baseDepth == b.baseDepth && a.Content() == b.Content()
    ensures TreeOf(a.shape) == TreeOf(b.shape)
    ensures HashOf(a.H, TreeOf(a.shape)) == HashOf(b.H, TreeOf(b.shape))
  {
    DenseIsCanonical(TreeOf(a.shape), a.baseDepth);
    DenseIsCanonical(TreeOf(b.shape), b.baseDepth);
  }
}
