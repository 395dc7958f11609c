/**
 The zero-padded binary Merkle tree that the pools only store implicitly: its nodes, its root,
 and the authentication paths against it.
 */
module MerkleTree {
  import opened Hashing

  /** Digest of an empty subtree of the given height. */
  function ZeroHash(h: HashFn, level: nat): Hash {
    if level == 0 then ZERO else var z := ZeroHash(h, level - 1); h(z, z)
  }

  method ComputeZeroHash(h: HashFn, level: nat) returns (z: Hash)
    ensures z == ZeroHash(h, level)
  {
    z := ZERO;
    for i := 0 to level
      invariant z == ZeroHash(h, i)
    {
      z := h(z, z);
    }
  }

  /** Leaf at position `k`, zero beyond the inserted ones. */
  function LeafAt(leaves: seq<Hash>, k: nat): Hash {
    if k < |leaves| then leaves[k] else ZERO
  }

  /** Node `index` of level `level`; level 0 holds the leaves. */
  function Node(h: HashFn, leaves: seq<Hash>, level: nat, index: nat): Hash
    decreases level
  {
    if level == 0 then LeafAt(leaves, index)
    else h(Node(h, leaves, level - 1, 2 * index), Node(h, leaves, level - 1, 2 * index + 1))
  }

  function RootOf(h: HashFn, depth: nat, leaves: seq<Hash>): Hash {
    Node(h, leaves, depth, 0)
  }

  // ----- An independent definition: split the padded leaf row in two halves -----

  function SplitRoot(h: HashFn, depth: nat, row: seq<Hash>): Hash
    requires |row| == Pow2(depth)
    decreases depth
  {
    if depth == 0 then row[0]
    else
      var half := Pow2(depth - 1);
      h(SplitRoot(h, depth - 1, row[..half]), SplitRoot(h, depth - 1, row[half..]))
  }

  function Padded(leaves: seq<Hash>, depth: nat): (row: seq<Hash>)
    requires |leaves| <= Pow2(depth)
    ensures |row| == Pow2(depth)
    ensures forall k :: 0 <= k < |row| ==> row[k] == LeafAt(leaves, k)
  {
    leaves + seq(Pow2(depth) - |leaves|, _ => ZERO)
  }

  lemma {:induction false} NodeIsSplitRoot(h: HashFn, leaves: seq<Hash>, level: nat, index: nat, row: seq<Hash>, base: nat)
    requires |row| == Pow2(level) && base == index * Pow2(level)
    requires forall k :: 0 <= k < |row| ==> row[k] == LeafAt(leaves, base + k)
    ensures Node(h, leaves, level, index) == SplitRoot(h, level, row)
    decreases level
  {
    if level > 0 {
      var half := Pow2(level - 1);
      assert base == (2 * index) * half;
      NodeIsSplitRoot(h, leaves, level - 1, 2 * index, row[..half], base);
      assert base + half == (2 * index + 1) * half;
      NodeIsSplitRoot(h, leaves, level - 1, 2 * index + 1, row[half..], base + half);
    }
  }

  /** The root is the recursive hash of all leaves padded with zeros to a full row. */
  lemma RootIsPaddedRoot(h: HashFn, depth: nat, leaves: seq<Hash>)
    requires |leaves| <= Pow2(depth)
    ensures RootOf(h, depth, leaves) == SplitRoot(h, depth, Padded(leaves, depth))
  {
    NodeIsSplitRoot(h, leaves, depth, 0, Padded(leaves, depth), 0);
  }

  /** The smallest trees written out: left child first, zeros on the right. */
  lemma SmallTrees(h: HashFn, x: Hash, y: Hash, z: Hash)
    ensures RootOf(h, 0, [x]) == x && RootOf(h, 1, [x]) == h(x, ZERO) && RootOf(h, 1, [x, y]) == h(x, y)
    ensures RootOf(h, 2, [x, y, z]) == h(h(x, y), h(z, ZERO))
    ensures RootOf(h, 2, [x]) == h(h(x, ZERO), h(ZERO, ZERO))
  {
    assert Node(h, [x, y, z], 1, 0) == h(x, y) && Node(h, [x, y, z], 1, 1) == h(z, ZERO);
    assert Node(h, [x], 1, 0) == h(x, ZERO) && Node(h, [x], 1, 1) == h(ZERO, ZERO);
  }

  // ----- Which leaves a node depends on -----

  lemma {:induction false} NodeDependsOnItsLeaves(h: HashFn, a: seq<Hash>, b: seq<Hash>, level: nat, index: nat)
    requires forall k: nat :: Ancestor(k, level) == index ==> LeafAt(a, k) == LeafAt(b, k)
    ensures Node(h, a, level, index) == Node(h, b, level, index)
    decreases level
  {
    if level == 0 {
      assert Ancestor(index, 0) == index;
    } else {
      forall k: nat | Ancestor(k, level - 1) / 2 == index
        ensures LeafAt(a, k) == LeafAt(b, k)
      {
        AncestorUp(k, level - 1);
      }
      NodeDependsOnItsLeaves(h, a, b, level - 1, 2 * index);
      NodeDependsOnItsLeaves(h, a, b, level - 1, 2 * index + 1);
    }
  }

  lemma {:induction false} NodeOfNoLeaves(h: HashFn, level: nat, index: nat)
    ensures Node(h, [], level, index) == ZeroHash(h, level)
    decreases level
  {
    if level > 0 {
      NodeOfNoLeaves(h, level - 1, 2 * index);
      NodeOfNoLeaves(h, level - 1, 2 * index + 1);
    }
  }

  /** A node to the right of every leaf is an empty subtree. */
  lemma NodePastTheEnd(h: HashFn, leaves: seq<Hash>, level: nat, index: nat)
    requires leaves != [] ==> Ancestor(|leaves| - 1, level) < index
    ensures Node(h, leaves, level, index) == ZeroHash(h, level)
  {
    forall k: nat | Ancestor(k, level) == index
      ensures LeafAt(leaves, k) == LeafAt([], k)
    {
      if k < |leaves| {
        AncestorMonotone(k, |leaves| - 1, level);
      }
    }
    NodeDependsOnItsLeaves(h, leaves, [], level, index);
    NodeOfNoLeaves(h, level, index);
  }

  /** Appending a leaf leaves every node that is not above it alone. */
  lemma NodeAppendElsewhere(h: HashFn, leaves: seq<Hash>, x: Hash, level: nat, index: nat)
    requires index != Ancestor(|leaves|, level)
    ensures Node(h, leaves + [x], level, index) == Node(h, leaves, level, index)
  {
    NodeDependsOnItsLeaves(h, leaves + [x], leaves, level, index);
  }

  // ----- Authentication paths -----

  /** One level of a path: bit 0 hashes (current, sibling), bit 1 (sibling, current). */
  function Combine(h: HashFn, bit: nat, current: Hash, sibling: Hash): Hash {
    if bit == 0 then h(current, sibling) else h(sibling, current)
  }

  /** Folds a path; the bits of `i`, lowest first, give the side at each level. */
  function Fold(h: HashFn, current: Hash, i: nat, siblings: seq<Hash>): Hash
    decreases |siblings|
  {
    if siblings == [] then current
    else Fold(h, Combine(h, i % 2, current, siblings[0]), i / 2, siblings[1..])
  }

  function Sibling(i: nat): nat {
    if i % 2 == 0 then i + 1 else i - 1
  }

  /** The siblings met on the way up from node `i` of `level`, `steps` levels. */
  function PathFrom(h: HashFn, leaves: seq<Hash>, level: nat, i: nat, steps: nat): (p: seq<Hash>)
    ensures |p| == steps
    decreases steps
  {
    if steps == 0 then []
    else [Node(h, leaves, level, Sibling(i))] + PathFrom(h, leaves, level + 1, i / 2, steps - 1)
  }

  lemma {:induction false} PathFromFolds(h: HashFn, leaves: seq<Hash>, level: nat, i: nat, steps: nat)
    ensures Fold(h, Node(h, leaves, level, i), i, PathFrom(h, leaves, level, i, steps))
         == Node(h, leaves, level + steps, Ancestor(i, steps))
    decreases steps
  {
    if steps > 0 {
      PathFromFolds(h, leaves, level + 1, i / 2, steps - 1);
      assert i == 2 * (i / 2) + i % 2;
    }
  }

  /** Every leaf position has a path of `depth` siblings that folds to the root. */
  lemma EveryLeafHasAPath(h: HashFn, depth: nat, leaves: seq<Hash>, i: nat)
    requires i < Pow2(depth)
    ensures Fold(h, LeafAt(leaves, i), i, PathFrom(h, leaves, 0, i, depth)) == RootOf(h, depth, leaves)
  {
    PathFromFolds(h, leaves, 0, i, depth);
    AncestorTop(i, depth);
  }

  /** The first place where a path and the tree reach one digest from (possibly) two pairs. */
  function MeetingPoint(h: HashFn, leaves: seq<Hash>, level: nat, x: Hash, i: nat, siblings: seq<Hash>): Clash
    decreases |siblings|
  {
    if siblings == [] then Clash(x, x, x, x)
    else
      var (a, b) := if i % 2 == 0 then (x, siblings[0]) else (siblings[0], x);
      var l := Node(h, leaves, level, 2 * (i / 2));
      var r := Node(h, leaves, level, 2 * (i / 2) + 1);
      if h(a, b) == h(l, r) then Clash(a, b, l, r)
      else MeetingPoint(h, leaves, level + 1, h(a, b), i / 2, siblings[1..])
  }

  lemma {:induction false} PathBindsNode(h: HashFn, leaves: seq<Hash>, level: nat, x: Hash, i: nat, siblings: seq<Hash>)
    requires Fold(h, x, i, siblings) == Node(h, leaves, level + |siblings|, Ancestor(i, |siblings|))
    ensures x == Node(h, leaves, level, i) || IsCollision(h, MeetingPoint(h, leaves, level, x, i, siblings))
    decreases |siblings|
  {
    if siblings != [] {
      var next := Combine(h, i % 2, x, siblings[0]);
      PathBindsNode(h, leaves, level + 1, next, i / 2, siblings[1..]);
      assert i == 2 * (i / 2) + i % 2;
    }
  }

  /**
   A path with the bits of `i` that folds to the root starts at the leaf of position `i` (zero
   padding included), or else path and tree together exhibit a collision of `h`.
   */
  lemma PathBindsLeaf(h: HashFn, depth: nat, leaves: seq<Hash>, x: Hash, i: nat, siblings: seq<Hash>)
    requires |siblings| == depth && i < Pow2(depth)
    requires Fold(h, x, i, siblings) == RootOf(h, depth, leaves)
    ensures x == LeafAt(leaves, i) || IsCollision(h, MeetingPoint(h, leaves, 0, x, i, siblings))
    ensures CollisionFree(h) ==> x == LeafAt(leaves, i)
  {
    AncestorTop(i, depth);
    PathBindsNode(h, leaves, 0, x, i, siblings);
  }
}
