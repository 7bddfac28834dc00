/** The flat node arena: slots, the shape they are linked into, and what it means for a
    shape to be stored in an arena.

    A `Shape` is a tree that remembers the slot of every node.  `Stored` ties it to the
    arena, cached hashes included; `Apart` says that no slot is used twice.
 */
module Arena {
  import opened Hashing
  import opened MerkleTree

  /** `u32::MAX` marks an empty link. */
  const NIL := 0xFFFF_FFFF

  datatype Slot =
    | LeafSlot(key: Hash, value: Hash)
    | InternalSlot(left: nat, right: nat, cache: Option<Hash>)

  datatype Shape =
    | Nothing
    | One(slot: nat, key: Hash, value: Hash)
    | Fork(slot: nat, left: Shape, right: Shape)

  ghost function Index(s: Shape): nat {
    if s.Nothing? then NIL else s.slot
  }

  ghost function TreeOf(s: Shape): Tree {
    match s
    case Nothing => Empty
    case One(_, k, v) => Leaf(k, v)
    case Fork(_, l, r) => Node(TreeOf(l), TreeOf(r))
  }

  ghost function Slots(s: Shape): set<nat> {
    match s
    case Nothing => {}
    case One(i, _, _) => {i}
    case Fork(i, l, r) => {i} + Slots(l) + Slots(r)
  }

  /** Every slot has one parent: the two sides of a fork and the fork itself are disjoint. */
  ghost predicate Apart(s: Shape) {
    s.Fork? ==>
      && s.slot !in Slots(s.left) && s.slot !in Slots(s.right)
      && Slots(s.left) !! Slots(s.right)
      && Apart(s.left) && Apart(s.right)
  }

  /** The arena holds `s`, and every cached hash below is the hash of what is there now. */
  ghost predicate Stored(H: Hasher, nodes: seq<Slot>, s: Shape) {
    match s
    case Nothing => true
    case One(i, k, v) => i < |nodes| && nodes[i] == LeafSlot(k, v)
    case Fork(i, l, r) =>
      && i < |nodes|
      && nodes[i].InternalSlot? && nodes[i].left == Index(l) && nodes[i].right == Index(r)
      && (nodes[i].cache.Some? ==> nodes[i].cache.value == HashOf(H, TreeOf(s)))
      && Stored(H, nodes, l) && Stored(H, nodes, r)
  }

  /** `m` has a tree from `depth` on, and the slot numbers below `NIL` are enough for it. */
  ghost predicate FitsArena(m: map<Hash, Hash>, depth: nat) {
    SharePrefix(m, depth) && exists t :: TreeFits(t, m, depth)
  }

  ghost predicate TreeFits(t: Tree, m: map<Hash, Hash>, depth: nat) {
    Holds(t, m, depth) && NodeCount(t) <= NIL
  }

  /** Which tree that is, the map says. */
  lemma {:induction false} FitsExact(m: map<Hash, Hash>, depth: nat)
    ensures FitsArena(m, depth) <==> SharePrefix(m, depth) && NodeCount(Canon(m, depth)) <= NIL
  {
    if FitsArena(m, depth) {
      var t :| TreeFits(t, m, depth);
      DenseIsCanonical(t, depth);
    } else if SharePrefix(m, depth) && NodeCount(Canon(m, depth)) <= NIL {
      CanonHolds(m, depth);
      assert TreeFits(Canon(m, depth), m, depth);
    }
  }

  /** `part` occurs in `whole`. */
  ghost predicate Within(part: Shape, whole: Shape) {
    part == whole || (whole.Fork? && (Within(part, whole.left) || Within(part, whole.right)))
  }

  lemma {:induction false} WithinSlots(part: Shape, whole: Shape)
    requires Within(part, whole)
    ensures Slots(part) <= Slots(whole)
    ensures Apart(whole) ==> Apart(part)
  {
    if part != whole {
      if Within(part, whole.left) { WithinSlots(part, whole.left); }
      else { WithinSlots(part, whole.right); }
    }
  }

  lemma {:induction false} WithinStored(H: Hasher, nodes: seq<Slot>, part: Shape, whole: Shape)
    requires Within(part, whole) && Stored(H, nodes, whole)
    ensures Stored(H, nodes, part)
  {
    if part != whole {
      if Within(part, whole.left) { WithinStored(H, nodes, part, whole.left); }
      else { WithinStored(H, nodes, part, whole.right); }
    }
  }

  lemma {:induction false} WithinTrans(a: Shape, b: Shape, c: Shape)
    requires Within(a, b) && Within(b, c)
    ensures Within(a, c)
  {
    if b != c {
      if Within(b, c.left) { WithinTrans(a, b, c.left); }
      else { WithinTrans(a, b, c.right); }
    }
  }

  /** A shape depends only on its own slots. */
  lemma {:induction false} StoredFrame(H: Hasher, before: seq<Slot>, after: seq<Slot>, s: Shape)
    requires Stored(H, before, s)
    requires forall i :: i in Slots(s) && i < |before| ==> i < |after| && after[i] == before[i]
    ensures Stored(H, after, s)
  {
    if s.Fork? {
      StoredFrame(H, before, after, s.left);
      StoredFrame(H, before, after, s.right);
    }
  }

  /** Rewriting only the slots of a part, so that the part stays stored, leaves the whole
      stored: this is what a memoizing hash walk does to the tree around it. */
  lemma {:induction false} StoredGraft(H: Hasher, before: seq<Slot>, after: seq<Slot>, part: Shape, whole: Shape)
    requires Stored(H, before, whole) && Apart(whole) && Within(part, whole)
    requires |after| == |before| && Stored(H, after, part)
    requires forall i :: 0 <= i < |before| && i !in Slots(part) ==> after[i] == before[i]
    ensures Stored(H, after, whole)
  {
    if part != whole {
      if Within(part, whole.left) {
        WithinSlots(part, whole.left);
        StoredGraft(H, before, after, part, whole.left);
        StoredFrame(H, before, after, whole.right);
      } else {
        WithinSlots(part, whole.right);
        StoredGraft(H, before, after, part, whole.right);
        StoredFrame(H, before, after, whole.left);
      }
    }
  }

  lemma {:induction false} StoredBounds(H: Hasher, nodes: seq<Slot>, s: Shape)
    requires Stored(H, nodes, s)
    ensures forall i :: i in Slots(s) ==> i < |nodes|
  {
    if s.Fork? {
      StoredBounds(H, nodes, s.left);
      StoredBounds(H, nodes, s.right);
    }
  }

  /** One slot per node. */
  lemma {:induction false} SlotCount(s: Shape)
    requires Apart(s)
    ensures |Slots(s)| == NodeCount(TreeOf(s))
  {
    if s.Fork? {
      SlotCount(s.left);
      SlotCount(s.right);
      assert |{s.slot} + Slots(s.left) + Slots(s.right)| == 1 + |Slots(s.left)| + |Slots(s.right)|;
    }
  }

  // --------------------------------------------------------------- free list

  ghost function Elements(xs: seq<nat>): set<nat> {
    set x | x in xs
  }

  predicate Between(from: nat, i: nat, to: nat) {
    from <= i < to
  }

  ghost function Range(from: nat, to: nat): set<nat> {
    set i: nat | i < to && Between(from, i, to)
  }

  lemma {:induction false} ElementsCount(xs: seq<nat>)
    requires NoRepeats(xs)
    ensures |Elements(xs)| == |xs|
  {
    if xs != [] {
      var init, last := xs[..|xs| - 1], xs[|xs| - 1];
      assert xs == init + [last];
      ElementsCount(init);
      assert Elements(xs) == Elements(init) + {last};
      assert last !in Elements(init);
    }
  }

  lemma {:induction false} RangeCount(from: nat, to: nat)
    requires from <= to
    ensures |Range(from, to)| == to - from
  {
    if from < to {
      RangeCount(from, to - 1);
      assert Range(from, to) == Range(from, to - 1) + {to - 1};
    } else {
      assert Range(from, to) == {};
    }
  }

  // ------------------------------------------------- updates below one slot

  /** Free slots are real, distinct and outside `used`. */
  ghost predicate FreeListOk(nodes: seq<Slot>, free: seq<nat>, used: set<nat>) {
    && NoRepeats(free) && used !! Elements(free)
    && forall i :: i in free ==> i < |nodes|
  }

  /** An update below `s` that leaves `s'`: it touches only the slots of `s` and free slots,
      takes new slots only from the free list or from growth, and loses none. */
  ghost predicate Update(n0: seq<Slot>, f0: seq<nat>, s: Shape, n1: seq<Slot>, f1: seq<nat>, s': Shape) {
    && |n0| <= |n1|
    && FreeListOk(n1, f1, Slots(s'))
    && Slots(s') + Elements(f1) == Slots(s) + Elements(f0) + Range(|n0|, |n1|)
    && forall i :: 0 <= i < |n0| && i !in Slots(s) && i !in Elements(f0) ==> n1[i] == n0[i]
  }

  /** An update takes exactly as many slots into use as the shape has gained nodes. */
  lemma {:induction false} UpdateCount(n0: seq<Slot>, f0: seq<nat>, s: Shape, n1: seq<Slot>, f1: seq<nat>, s': Shape)
    requires Update(n0, f0, s, n1, f1, s') && Apart(s) && Apart(s') && FreeListOk(n0, f0, Slots(s))
    requires forall i :: i in Slots(s) ==> i < |n0|
    ensures |n1| - |f1| - NodeCount(TreeOf(s')) == |n0| - |f0| - NodeCount(TreeOf(s))
  {
    SlotCount(s);
    SlotCount(s');
    ElementsCount(f0);
    ElementsCount(f1);
    RangeCount(|n0|, |n1|);
    SizeOfThree(Slots(s), Elements(f0), Range(|n0|, |n1|));
    SizeOfThree(Slots(s'), Elements(f1), {});
    assert Slots(s') + Elements(f1) + {} == Slots(s') + Elements(f1);
  }

  lemma {:induction false} SizeOfThree(a: set<nat>, b: set<nat>, c: set<nat>)
    requires a !! b && a !! c && b !! c
    ensures |a + b + c| == |a| + |b| + |c|
  {
    assert |a + b| == |a| + |b|;
  }

  lemma {:induction false} UpdateTrans(n0: seq<Slot>, f0: seq<nat>, a: Shape, n1: seq<Slot>, f1: seq<nat>, b: Shape,
                    n2: seq<Slot>, f2: seq<nat>, c: Shape)
    requires Update(n0, f0, a, n1, f1, b) && Update(n1, f1, b, n2, f2, c)
    ensures Update(n0, f0, a, n2, f2, c)
  {
    assert Range(|n0|, |n2|) == Range(|n0|, |n1|) + Range(|n1|, |n2|);
    forall i | 0 <= i < |n0| && i !in Slots(a) && i !in Elements(f0) ensures n2[i] == n0[i] {
      assert i !in Slots(b) + Elements(f1);
    }
  }

  /** Rewriting one of the shape's own slots first changes nothing about the accounting. */
  lemma {:induction false} UpdateRewrite(n0: seq<Slot>, f0: seq<nat>, slot: nat, x: Slot, a: Shape, b: Shape,
                      n1: seq<Slot>, f1: seq<nat>, c: Shape)
    requires slot < |n0| && slot in Slots(a) && Slots(a) == Slots(b)
    requires Update(n0[slot := x], f0, b, n1, f1, c)
    ensures Update(n0, f0, a, n1, f1, c)
  {
  }

  ghost function Child(s: Shape, right: bool): Shape
    requires s.Fork?
  {
    if right then s.right else s.left
  }

  ghost function WithChild(s: Shape, right: bool, child: Shape): Shape
    requires s.Fork?
  {
    if right then s.(right := child) else s.(left := child)
  }

  function WithLink(x: Slot, right: bool, link: nat): Slot
    requires x.InternalSlot?
  {
    if right then InternalSlot(x.left, link, None) else InternalSlot(link, x.right, None)
  }

  /** An update of one child is an update of the fork once the fork's link is written back
      and its cached hash dropped. */
  lemma {:induction false} UpdateFork(H: Hasher, n0: seq<Slot>, f0: seq<nat>, s: Shape, right: bool,
                   n1: seq<Slot>, f1: seq<nat>, child: Shape)
    requires s.Fork? && Apart(s) && Stored(H, n0, s) && FreeListOk(n0, f0, Slots(s))
    requires Update(n0, f0, Child(s, right), n1, f1, child) && Apart(child) && Stored(H, n1, child)
    ensures s.slot < |n1| && n1[s.slot] == n0[s.slot]
    ensures
      var n2 := n1[s.slot := WithLink(n0[s.slot], right, Index(child))];
      var s' := WithChild(s, right, child);
      Update(n0, f0, s, n2, f1, s') && Apart(s') && Stored(H, n2, s')
  {
    StoredBounds(H, n0, s);
    var n2 := n1[s.slot := WithLink(n0[s.slot], right, Index(child))];
    var s' := WithChild(s, right, child);
    var other := Child(s, !right);
    assert s.slot !in Slots(child);
    assert Slots(other) !! Slots(child);
    StoredFrame(H, n1, n2, child);
    StoredFrame(H, n0, n2, other);
    assert Slots(s') == {s.slot} + Slots(child) + Slots(other);
    assert Slots(s) == {s.slot} + Slots(Child(s, right)) + Slots(other);
  }

  /** Dropping a fork's cached hash keeps it stored. */
  lemma {:induction false} StoredDropCache(H: Hasher, nodes: seq<Slot>, s: Shape)
    requires s.Fork? && Apart(s) && Stored(H, nodes, s)
    ensures Stored(H, nodes[s.slot := nodes[s.slot].(cache := None)], s)
  {
    var after := nodes[s.slot := nodes[s.slot].(cache := None)];
    StoredFrame(H, nodes, after, s.left);
    StoredFrame(H, nodes, after, s.right);
  }

  /** The nodes that an insertion adds. */
  ghost function Gain(t: Tree, key: Hash, value: Hash, depth: nat): int
    requires Placed(t, depth) && Fits(Contents(t), key, depth)
  {
    NodeCount(Insert(t, key, value, depth)) - NodeCount(t)
  }

  /** Inserting into the selected child is inserting into the fork. */
  lemma {:induction false} InsertInFork(s: Shape, key: Hash, value: Hash, depth: nat, child: Shape)
    requires s.Fork? && Placed(TreeOf(s), depth) && Fits(Contents(TreeOf(s)), key, depth)
    ensures
      var right := Bit(key, depth);
      var below := TreeOf(Child(s, right));
      && Placed(below, depth + 1) && Fits(Contents(below), key, depth + 1)
      && (key in Contents(below) <==> key in Contents(TreeOf(s)))
      && (TreeOf(child) == Insert(below, key, value, depth + 1) ==>
            TreeOf(WithChild(s, right, child)) == Insert(TreeOf(s), key, value, depth))
      && Gain(below, key, value, depth + 1) == Gain(TreeOf(s), key, value, depth)
  {
    var right := Bit(key, depth);
    FitsBelow(Contents(TreeOf(Child(s, right))), Contents(TreeOf(s)), key, depth, right);
  }

  /** Removing from the selected child and collapsing is removing from the fork. */
  lemma {:induction false} RemoveInFork(s: Shape, key: Hash, depth: nat, child: Shape)
    requires s.Fork? && Placed(TreeOf(s), depth)
    ensures
      var right := Bit(key, depth);
      var below := TreeOf(Child(s, right));
      && Placed(below, depth + 1)
      && (key in Contents(below) <==> key in Contents(TreeOf(s)))
      && (TreeOf(child) == Remove(below, key, depth + 1) ==>
            var fork := WithChild(s, right, child);
            Collapse(TreeOf(fork.left), TreeOf(fork.right)) == Remove(TreeOf(s), key, depth))
  {
  }

  /** An arena whose slots are all owned once stays so across an update from the root. */
  ghost predicate AllOwned(nodes: seq<Slot>, free: seq<nat>, s: Shape) {
    && Apart(s) && NoRepeats(free) && Slots(s) !! Elements(free)
    && Slots(s) + Elements(free) == Range(0, |nodes|)
  }

  lemma {:induction false} AllOwnedFree(nodes: seq<Slot>, free: seq<nat>, s: Shape)
    requires AllOwned(nodes, free, s)
    ensures FreeListOk(nodes, free, Slots(s))
  {
    forall i | i in free ensures i < |nodes| {
      assert i in Elements(free);
      assert i in Range(0, |nodes|);
    }
  }

  lemma {:induction false} AllOwnedUpdate(n0: seq<Slot>, f0: seq<nat>, s: Shape, n1: seq<Slot>, f1: seq<nat>, s': Shape)
    requires AllOwned(n0, f0, s) && Update(n0, f0, s, n1, f1, s') && Apart(s')
    ensures AllOwned(n1, f1, s')
  {
    assert Range(0, |n1|) == Range(0, |n0|) + Range(|n0|, |n1|);
  }

  /** Nothing leaks: the arena is exactly the live nodes and the free list. */
  lemma {:induction false} AllOwnedCount(nodes: seq<Slot>, free: seq<nat>, s: Shape)
    requires AllOwned(nodes, free, s)
    ensures |nodes| == NodeCount(TreeOf(s)) + |free|
  {
    SlotCount(s);
    ElementsCount(free);
    RangeCount(0, |nodes|);
    assert |Slots(s) + Elements(free)| == |Slots(s)| + |Elements(free)|;
  }
}
