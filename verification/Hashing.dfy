/** Bytes, 32-byte hashes, key bits and the domain-separated hash inputs of the tree.

    The hash function (blake3 in the program) is a parameter `H` of everything that
    uses it.  Nothing is assumed about `H`: where the program relies on collision
    resistance, the statements here hand back a `Break`, a concrete violation of it, among
    the inputs that the two sides hash.
 */
module Hashing {

  type byte = x: int | 0 <= x < 256

  /** 32-byte hash or key. */
  type Hash = s: seq<byte> | |s| == 32 witness seq(32, _ => 0)

  type Hasher = seq<byte> -> Hash

  datatype Option<+T> = None | Some(value: T)

  /** Hash of an empty subtree. */
  const EMPTY_HASH: Hash := [0, 0, 0, 0, 0, 0, 0, 0, 0, 0, 0, 0, 0, 0, 0, 0,
                             0, 0, 0, 0, 0, 0, 0, 0, 0, 0, 0, 0, 0, 0, 0, 0]

  const KEY_BITS := 256

  // ---------------------------------------------------------------- key bits

  /** `x >> n` on an unsigned byte. */
  function Shr(x: byte, n: nat): byte {
    if n == 0 then x else Shr(x / 2, n - 1)
  }

  /** Bit `depth` of `key`, most significant bit first. */
  predicate Bit(key: Hash, depth: nat)
    requires depth < KEY_BITS
  {
    Shr(key[depth / 8], 7 - depth % 8) % 2 == 1
  }

  /** What the bits of a byte count for, the most significant first. */
  const BIT_WEIGHTS: seq<nat> := [128, 64, 32, 16, 8, 4, 2, 1]

  lemma {:induction false} BitByWeight(key: Hash, depth: nat)
    requires depth < KEY_BITS
    ensures Bit(key, depth) <==> key[depth / 8] / BIT_WEIGHTS[depth % 8] % 2 == 1
  {
    ShrByWeight(key[depth / 8], depth % 8);
  }

  lemma {:induction false} ShrByWeight(x: byte, i: nat)
    requires i < 8
    ensures Shr(x, 7 - i) == x / BIT_WEIGHTS[i]
    decreases 7 - i
  {
    if i < 7 {
      ShrByWeight(x, i + 1);
      ShrCompose(x, 6 - i, 1);
      assert Shr(Shr(x, 6 - i), 1) == Shr(x, 6 - i) / 2;
    }
  }

  /** `a` and `b` have the same bits in `[from, to)`, as far as keys have bits. */
  ghost predicate AgreeOn(a: Hash, b: Hash, from: nat, to: nat) {
    forall i :: from <= i < to && i < KEY_BITS ==> Bit(a, i) == Bit(b, i)
  }

  lemma {:induction false} ShrCompose(x: byte, m: nat, n: nat)
    ensures Shr(Shr(x, m), n) == Shr(x, m + n)
  {
    if m > 0 { ShrCompose(x / 2, m - 1, n); }
  }

  ghost function Pow2(n: nat): (p: nat)
    ensures p >= 1 && (n > 0 ==> p >= 2)
  {
    if n == 0 then 1 else 2 * Pow2(n - 1)
  }

  /** The low `n` bits determine a number below `2^n`. */
  lemma {:induction false} BitsDetermineByte(x: byte, y: byte, n: nat)
    requires x < Pow2(n) && y < Pow2(n)
    requires forall j :: 0 <= j < n ==> Shr(x, j) % 2 == Shr(y, j) % 2
    ensures x == y
  {
    if n > 0 {
      assert Shr(x, 0) % 2 == Shr(y, 0) % 2;
      forall j | 0 <= j < n - 1 ensures Shr(x / 2, j) % 2 == Shr(y / 2, j) % 2 {
        assert Shr(x, j + 1) % 2 == Shr(y, j + 1) % 2;
      }
      BitsDetermineByte(x / 2, y / 2, n - 1);
    }
  }

  /** Two keys with the same 256 bits are the same key: this is what bounds the depth
      of every split. */
  lemma {:induction false} BitsDetermineKey(a: Hash, b: Hash, to: nat)
    requires to >= KEY_BITS && AgreeOn(a, b, 0, to)
    ensures a == b
  {
    forall i | 0 <= i < 32 ensures a[i] == b[i] {
      forall j | 0 <= j < 8 ensures Shr(a[i], j) % 2 == Shr(b[i], j) % 2 {
        var d := 8 * i + (7 - j);
        assert Bit(a, d) == Bit(b, d);
        assert d / 8 == i && d % 8 == 7 - j;
      }
      assert Pow2(8) == 256 by { assert Pow2(4) == 16; }
      BitsDetermineByte(a[i], b[i], 8);
    }
  }

  // ------------------------------------------------------------- hash inputs

  const LEAF_PREFIX: byte := 0x00
  const INTERNAL_PREFIX: byte := 0x01

  function LeafBytes(key: Hash, value: Hash): seq<byte> {
    [LEAF_PREFIX] + key + value
  }

  function InternalBytes(left: Hash, right: Hash): seq<byte> {
    [INTERNAL_PREFIX] + left + right
  }

  function PairBytes(a: Hash, b: Hash): seq<byte> {
    a + b
  }

  function HashLeaf(H: Hasher, key: Hash, value: Hash): Hash {
    H(LeafBytes(key, value))
  }

  function HashInternal(H: Hasher, left: Hash, right: Hash): Hash {
    H(InternalBytes(left, right))
  }

  function HashPair(H: Hasher, a: Hash, b: Hash): Hash {
    H(PairBytes(a, b))
  }

  function HashValue(H: Hasher, value: seq<byte>): Hash {
    H(value)
  }

  lemma {:induction false} PairBytesInjective(a: Hash, b: Hash, c: Hash, d: Hash)
    ensures PairBytes(a, b) == PairBytes(c, d) <==> a == c && b == d
  {
    if PairBytes(a, b) == PairBytes(c, d) {
      assert a == PairBytes(a, b)[..32] == PairBytes(c, d)[..32] == c;
      assert b == PairBytes(a, b)[32..] == PairBytes(c, d)[32..] == d;
    }
  }

  lemma {:induction false} LeafBytesInjective(k: Hash, v: Hash, k': Hash, v': Hash)
    ensures LeafBytes(k, v) == LeafBytes(k', v') <==> k == k' && v == v'
  {
    assert LeafBytes(k, v)[1..] == PairBytes(k, v);
    assert LeafBytes(k', v')[1..] == PairBytes(k', v');
    PairBytesInjective(k, v, k', v');
  }

  lemma {:induction false} InternalBytesInjective(l: Hash, r: Hash, l': Hash, r': Hash)
    ensures InternalBytes(l, r) == InternalBytes(l', r') <==> l == l' && r == r'
  {
    assert InternalBytes(l, r)[1..] == PairBytes(l, r);
    assert InternalBytes(l', r')[1..] == PairBytes(l', r');
    PairBytesInjective(l, r, l', r');
  }

  /** The two domain prefixes keep leaf and internal inputs apart. */
  lemma {:induction false} LeafIsNotInternal(k: Hash, v: Hash, l: Hash, r: Hash)
    ensures LeafBytes(k, v) != InternalBytes(l, r)
  {
    assert LeafBytes(k, v)[0] == LEAF_PREFIX && InternalBytes(l, r)[0] == INTERNAL_PREFIX;
  }

  // -------------------------------------------------- violations of the hash

  /** A concrete violation of the hash function's promises. */
  datatype Break =
    | Collision(x: seq<byte>, y: seq<byte>)
    | EmptyPreimage(x: seq<byte>)

  predicate Genuine(H: Hasher, b: Break) {
    match b
    case Collision(x, y) => x != y && H(x) == H(y)
    case EmptyPreimage(x) => H(x) == EMPTY_HASH
  }

  /** Every function to 32 bytes collides somewhere, so what counts is where: this break is between
      an input from `xs` and one from `ys`, or is one input from either. */
  predicate DrawnFrom(b: Break, xs: set<seq<byte>>, ys: set<seq<byte>>) {
    match b
    case Collision(x, y) => x in xs && y in ys
    case EmptyPreimage(x) => x in xs || x in ys
  }

  // ------------------------------------------------------------------ sequences

  predicate NoRepeats<T(==)>(xs: seq<T>) {
    forall i, j :: 0 <= i < j < |xs| ==> xs[i] != xs[j]
  }

  /** Nothing repeats exactly if there are as many elements as places. */
  lemma {:induction false} DistinctExactly<T>(xs: seq<T>)
    ensures NoRepeats(xs) <==> |set x | x in xs| == |xs|
    ensures |set x | x in xs| <= |xs|
  {
    if xs != [] {
      var init, last := xs[..|xs| - 1], xs[|xs| - 1];
      DistinctExactly(init);
      assert xs == init + [last];
      assert (set x | x in xs) == (set x | x in init) + {last};
      if NoRepeats(xs) {
        assert last !in init;
      } else if NoRepeats(init) {
        assert last in init;
      }
    }
  }
}
