/**
 The tree of the ink! contract. Unlike the padded tree, an empty subtree is ZERO at every level;
 a subtree that holds a leaf is the hash of its two halves.
 */
module SparseTree {
  import opened Hashing
  import opened MerkleTree

  type Nodes = map<(nat, nat), Hash>

  /** Some of the first `n` leaves lies below node `index` of `level`. */
  ghost predicate Occupied(n: nat, level: nat, index: nat) {
    exists k: nat :: k < n && Ancestor(k, level) == index
  }

  ghost function Sparse(h: HashFn, leaves: seq<Hash>, level: nat, index: nat): Hash
    decreases level
  {
    if !Occupied(|leaves|, level, index) then ZERO
    else if level == 0 then leaves[index]
    else h(Sparse(h, leaves, level - 1, 2 * index), Sparse(h, leaves, level - 1, 2 * index + 1))
  }

  ghost function SparseRoot(h: HashFn, depth: nat, leaves: seq<Hash>): Hash {
    Sparse(h, leaves, depth, 0)
  }

  lemma OccupiedAppend(n: nat, level: nat, index: nat)
    ensures Occupied(n + 1, level, index) <==> Occupied(n, level, index) || index == Ancestor(n, level)
  {
    if index == Ancestor(n, level) {
      assert n < n + 1 && Ancestor(n, level) == index;
    }
  }

  lemma OccupiedUp(n: nat, level: nat, index: nat)
    requires Occupied(n, level, index)
    ensures Occupied(n, level + 1, index / 2)
  {
    var k: nat :| k < n && Ancestor(k, level) == index;
    AncestorUp(k, level);
  }

  /** The parent of an occupied node is the hash of the node and its sibling, in their order. */
  lemma SparseParent(h: HashFn, leaves: seq<Hash>, level: nat, i: nat)
    requires Occupied(|leaves|, level, i)
    ensures Sparse(h, leaves, level + 1, i / 2)
         == Combine(h, i % 2, Sparse(h, leaves, level, i), Sparse(h, leaves, level, Sibling(i)))
  {
    OccupiedUp(|leaves|, level, i);
    assert i == 2 * (i / 2) + i % 2;
  }

  /** A new leaf changes only the nodes above it. */
  lemma {:induction false} SparseElsewhere(h: HashFn, leaves: seq<Hash>, x: Hash, level: nat, index: nat)
    requires index != Ancestor(|leaves|, level)
    ensures Sparse(h, leaves + [x], level, index) == Sparse(h, leaves, level, index)
    decreases level
  {
    OccupiedAppend(|leaves|, level, index);
    if level > 0 {
      AncestorUp(|leaves|, level - 1);
      SparseElsewhere(h, leaves, x, level - 1, 2 * index);
      SparseElsewhere(h, leaves, x, level - 1, 2 * index + 1);
    }
  }

  /** Level `level` of the map is exactly the non-empty nodes of that level. */
  ghost predicate LevelHolds(h: HashFn, nodes: Nodes, leaves: seq<Hash>, level: nat) {
    forall i: nat ::
      && ((level, i) in nodes <==> Occupied(|leaves|, level, i))
      && ((level, i) in nodes ==> nodes[(level, i)] == Sparse(h, leaves, level, i))
  }

  lemma WriteLevel(h: HashFn, nodes: Nodes, leaves: seq<Hash>, x: Hash, level: nat)
    requires LevelHolds(h, nodes, leaves, level)
    ensures var i := Ancestor(|leaves|, level);
      LevelHolds(h, nodes[(level, i) := Sparse(h, leaves + [x], level, i)], leaves + [x], level)
  {
    var at := Ancestor(|leaves|, level);
    var now := nodes[(level, at) := Sparse(h, leaves + [x], level, at)];
    forall i: nat
      ensures (level, i) in now <==> Occupied(|leaves| + 1, level, i)
      ensures (level, i) in now ==> now[(level, i)] == Sparse(h, leaves + [x], level, i)
    {
      OccupiedAppend(|leaves|, level, i);
      if i != at {
        SparseElsewhere(h, leaves, x, level, i);
      }
    }
  }

  ghost predicate NodesHold(h: HashFn, nodes: Nodes, leaves: seq<Hash>, depth: nat) {
    && (forall l: nat :: l <= depth ==> LevelHolds(h, nodes, leaves, l))
    && (forall l: nat, i: nat :: (l, i) in nodes ==> l <= depth)
  }

  /** A node the map does not hold reads as ZERO, which is what the sparse tree has there. */
  function Read(nodes: Nodes, level: nat, index: nat): Hash {
    if (level, index) in nodes then nodes[(level, index)] else ZERO
  }

  lemma ReadIsSparse(h: HashFn, nodes: Nodes, leaves: seq<Hash>, level: nat, index: nat)
    requires LevelHolds(h, nodes, leaves, level)
    ensures Read(nodes, level, index) == Sparse(h, leaves, level, index)
  {
    assert (level, index) in nodes <==> Occupied(|leaves|, level, index);
  }

  /** Going up one level from the new leaf, with the sibling read from the map. */
  lemma SparseUp(h: HashFn, nodes: Nodes, leaves: seq<Hash>, x: Hash, level: nat)
    requires LevelHolds(h, nodes, leaves + [x], level)
    ensures var ls, i := leaves + [x], Ancestor(|leaves|, level);
      && Ancestor(|leaves|, level + 1) == i / 2
      && Sparse(h, ls, level + 1, i / 2) ==
         if i % 2 == 0 then h(Sparse(h, ls, level, i), Read(nodes, level, i + 1))
         else h(Read(nodes, level, i - 1), Sparse(h, ls, level, i))
  {
    var i := Ancestor(|leaves|, level);
    AncestorUp(|leaves|, level);
    OccupiedAppend(|leaves|, level, i);
    SparseParent(h, leaves + [x], level, i);
    ReadIsSparse(h, nodes, leaves + [x], level, Sibling(i));
  }

  /** Levels up to `done` already know the new leaf `x`; the ones above do not yet. */
  ghost predicate Midway(h: HashFn, nodes: Nodes, leaves: seq<Hash>, x: Hash, done: nat, depth: nat) {
    && (forall l: nat :: l <= done && l <= depth ==> LevelHolds(h, nodes, leaves + [x], l))
    && (forall l: nat :: done < l <= depth ==> LevelHolds(h, nodes, leaves, l))
    && (forall l: nat, i: nat :: (l, i) in nodes ==> l <= depth)
  }

  lemma MidwayStep(h: HashFn, nodes: Nodes, leaves: seq<Hash>, x: Hash, done: nat, depth: nat)
    requires done < depth && Midway(h, nodes, leaves, x, done, depth)
    ensures var i := Ancestor(|leaves|, done + 1);
      Midway(h, nodes[(done + 1, i) := Sparse(h, leaves + [x], done + 1, i)], leaves, x, done + 1, depth)
  {
    var i := Ancestor(|leaves|, done + 1);
    var now := nodes[(done + 1, i) := Sparse(h, leaves + [x], done + 1, i)];
    assert LevelHolds(h, nodes, leaves, done + 1);
    WriteLevel(h, nodes, leaves, x, done + 1);
    forall l: nat, ls | l != done + 1 && LevelHolds(h, nodes, ls, l)
      ensures LevelHolds(h, now, ls, l)
    {
    }
  }

  /** One turn of the loop: the parent of the node just written is hashed and written. */
  lemma ParentStep(h: HashFn, nodes: Nodes, leaves: seq<Hash>, x: Hash, level: nat, depth: nat, current: Hash, index: nat)
    requires level < depth && Midway(h, nodes, leaves, x, level, depth)
    requires index == Ancestor(|leaves|, level) && current == Sparse(h, leaves + [x], level, index)
    ensures var up := if index % 2 == 0 then h(current, Read(nodes, level, index + 1)) else h(Read(nodes, level, index - 1), current);
      && index / 2 == Ancestor(|leaves|, level + 1) && up == Sparse(h, leaves + [x], level + 1, index / 2)
      && Midway(h, nodes[(level + 1, index / 2) := up], leaves, x, level + 1, depth)
  {
    SparseUp(h, nodes, leaves, x, level);
    MidwayStep(h, nodes, leaves, x, level, depth);
  }

  lemma LeafStep(h: HashFn, nodes: Nodes, leaves: seq<Hash>, x: Hash, depth: nat)
    requires NodesHold(h, nodes, leaves, depth)
    ensures x == Sparse(h, leaves + [x], 0, |leaves|)
    ensures Midway(h, nodes[(0, |leaves|) := x], leaves, x, 0, depth)
  {
    OccupiedAppend(|leaves|, 0, |leaves|);
    WriteLevel(h, nodes, leaves, x, 0);
    var now := nodes[(0, |leaves|) := x];
    forall l: nat | 0 < l <= depth
      ensures LevelHolds(h, now, leaves, l)
    {
      assert LevelHolds(h, nodes, leaves, l);
    }
  }

  /** Writes the new leaf and rehashes its path; `root` is the sparse root of all leaves. */
  method UpdateTree(h: HashFn, depth: nat, before: Nodes, leaf: Hash, leafIndex: nat, ghost leaves: seq<Hash>)
    returns (nodes: Nodes, root: Hash)
    requires NodesHold(h, before, leaves, depth) && leafIndex == |leaves| < Pow2(depth)
    ensures NodesHold(h, nodes, leaves + [leaf], depth)
    ensures root == SparseRoot(h, depth, leaves + [leaf])
  {
    ghost var ls := leaves + [leaf];
    LeafStep(h, before, leaves, leaf, depth);
    nodes := before[(0, leafIndex) := leaf];
    var current, index := leaf, leafIndex;
    for level := 0 to depth
      invariant index == Ancestor(leafIndex, level) && current == Sparse(h, ls, level, index)
      invariant Midway(h, nodes, leaves, leaf, level, depth)
    {
      ParentStep(h, nodes, leaves, leaf, level, depth, current, index);
      var left, right;
      if index % 2 == 0 {
        left, right := current, Read(nodes, level, index + 1);
      } else {
        left, right := Read(nodes, level, index - 1), current;
      }
      current := h(left, right);
      index := index / 2;
      nodes := nodes[(level + 1, index) := current];
    }
    AncestorTop(leafIndex, depth);
    root := current;
  }

  lemma SparseOfEmpty(h: HashFn, leaves: seq<Hash>, level: nat, i: nat)
    requires leaves != [] ==> Ancestor(|leaves| - 1, level) < i
    ensures Sparse(h, leaves, level, i) == ZERO
  {
    forall k: nat | k < |leaves|
      ensures Ancestor(k, level) != i
    {
      AncestorMonotone(k, |leaves| - 1, level);
    }
  }

  lemma OccupiedBy(n: nat, k: nat, level: nat)
    requires k < n
    ensures Occupied(n, level, Ancestor(k, level))
  {
  }

  lemma SparsePair(h: HashFn, leaves: seq<Hash>)
    requires leaves != []
    ensures Sparse(h, leaves, 1, 0) == h(LeafAt(leaves, 0), LeafAt(leaves, 1))
    ensures |leaves| > 2 ==> Sparse(h, leaves, 1, 1) == h(LeafAt(leaves, 2), LeafAt(leaves, 3))
  {
    SparseLeaf(h, leaves, 0);
    SparseLeaf(h, leaves, 1);
    SparseParent(h, leaves, 0, 0);
    if |leaves| > 2 {
      SparseLeaf(h, leaves, 2);
      SparseLeaf(h, leaves, 3);
      SparseParent(h, leaves, 0, 2);
    }
  }

  /** The smallest trees written out: left child first, and an empty half is zero at any height. */
  lemma SmallSparseTrees(h: HashFn, x: Hash, y: Hash, z: Hash)
    ensures SparseRoot(h, 2, []) == ZERO && SparseRoot(h, 1, [x, y]) == h(x, y)
    ensures SparseRoot(h, 2, [x]) == h(h(x, ZERO), ZERO)
    ensures SparseRoot(h, 2, [x, y, z]) == h(h(x, y), h(z, ZERO))
  {
    SparseOfEmpty(h, [], 2, 0);
    SparsePair(h, [x, y]);
    SparsePair(h, [x]);
    SparsePair(h, [x, y, z]);
    assert Ancestor(0, 1) == 0;
    OccupiedBy(1, 0, 1);
    SparseParent(h, [x], 1, 0);
    SparseOfEmpty(h, [x], 1, 1);
    OccupiedBy(3, 0, 1);
    SparseParent(h, [x, y, z], 1, 0);
  }

  // ----- Authentication paths -----

  /** The siblings met on the way up from node `i` of `level`, `steps` levels. */
  ghost function SparsePath(h: HashFn, leaves: seq<Hash>, level: nat, i: nat, steps: nat): (p: seq<Hash>)
    ensures |p| == steps
    decreases steps
  {
    if steps == 0 then []
    else [Sparse(h, leaves, level, Sibling(i))] + SparsePath(h, leaves, level + 1, i / 2, steps - 1)
  }

  lemma {:induction false} SparsePathFolds(h: HashFn, leaves: seq<Hash>, level: nat, i: nat, steps: nat)
    requires Occupied(|leaves|, level, i)
    ensures Fold(h, Sparse(h, leaves, level, i), i, SparsePath(h, leaves, level, i, steps))
         == Sparse(h, leaves, level + steps, Ancestor(i, steps))
    decreases steps
  {
    if steps > 0 {
      OccupiedUp(|leaves|, level, i);
      SparseParent(h, leaves, level, i);
      SparsePathFolds(h, leaves, level + 1, i / 2, steps - 1);
    }
  }

  lemma SparseLeaf(h: HashFn, leaves: seq<Hash>, i: nat)
    ensures Occupied(|leaves|, 0, i) <==> i < |leaves|
    ensures Sparse(h, leaves, 0, i) == LeafAt(leaves, i)
  {
    assert Ancestor(i, 0) == i;
  }

  /** Every inserted leaf has a path of `depth` siblings that folds to the sparse root. */
  lemma EverySparseLeafHasAPath(h: HashFn, depth: nat, leaves: seq<Hash>, i: nat)
    requires i < |leaves| && i < Pow2(depth)
    ensures Fold(h, leaves[i], i, SparsePath(h, leaves, 0, i, depth)) == SparseRoot(h, depth, leaves)
  {
    SparseLeaf(h, leaves, i);
    SparsePathFolds(h, leaves, 0, i, depth);
    AncestorTop(i, depth);
  }

  /** The first place where a path and the tree reach one digest from (possibly) two pairs. */
  ghost function SparseMeeting(h: HashFn, leaves: seq<Hash>, level: nat, x: Hash, i: nat, siblings: seq<Hash>): Clash
    decreases |siblings|
  {
    if siblings == [] then Clash(x, x, x, x)
    else
      var (a, b) := if i % 2 == 0 then (x, siblings[0]) else (siblings[0], x);
      var l := Sparse(h, leaves, level, 2 * (i / 2));
      var r := Sparse(h, leaves, level, 2 * (i / 2) + 1);
      if h(a, b) == h(l, r) then Clash(a, b, l, r)
      else SparseMeeting(h, leaves, level + 1, h(a, b), i / 2, siblings[1..])
  }

  /** Some pair hashes to the digest that stands for an empty subtree. */
  ghost predicate HitsZero(h: HashFn) {
    exists a, b :: h(a, b) == ZERO
  }

  /** One level of the argument: two pairs with one digest are equal or collide, and an empty parent is ZERO. */
  lemma StepBinds(h: HashFn, leaves: seq<Hash>, level: nat, x: Hash, i: nat, sibling: Hash)
    requires Combine(h, i % 2, x, sibling) == Sparse(h, leaves, level + 1, i / 2)
    ensures var (a, b) := if i % 2 == 0 then (x, sibling) else (sibling, x);
      var l, r := Sparse(h, leaves, level, 2 * (i / 2)), Sparse(h, leaves, level, 2 * (i / 2) + 1);
      x == Sparse(h, leaves, level, i) || IsCollision(h, Clash(a, b, l, r)) || (!Occupied(|leaves|, level, i) && HitsZero(h))
  {
    assert i == 2 * (i / 2) + i % 2;
    if Occupied(|leaves|, level, i) {
      OccupiedUp(|leaves|, level, i);
    }
  }

  lemma {:induction false} PathBindsSparseNode(h: HashFn, leaves: seq<Hash>, level: nat, x: Hash, i: nat, siblings: seq<Hash>)
    requires Fold(h, x, i, siblings) == Sparse(h, leaves, level + |siblings|, Ancestor(i, |siblings|))
    ensures x == Sparse(h, leaves, level, i) || IsCollision(h, SparseMeeting(h, leaves, level, x, i, siblings))
         || (!Occupied(|leaves|, level, i) && HitsZero(h))
    decreases |siblings|
  {
    if siblings != [] {
      var next := Combine(h, i % 2, x, siblings[0]);
      PathBindsSparseNode(h, leaves, level + 1, next, i / 2, siblings[1..]);
      if Occupied(|leaves|, level, i) {
        OccupiedUp(|leaves|, level, i);
      }
      if next == Sparse(h, leaves, level + 1, i / 2) {
        StepBinds(h, leaves, level, x, i, siblings[0]);
      }
    }
  }

  /**
   A path with the bits of `i` that folds to the sparse root starts at the leaf of position `i`, or
   exhibits a collision; only for a position without a leaf a preimage of ZERO is a third way out.
   */
  lemma PathBindsSparseLeaf(h: HashFn, depth: nat, leaves: seq<Hash>, x: Hash, i: nat, siblings: seq<Hash>)
    requires |siblings| == depth && i < Pow2(depth)
    requires Fold(h, x, i, siblings) == SparseRoot(h, depth, leaves)
    ensures x == LeafAt(leaves, i) || IsCollision(h, SparseMeeting(h, leaves, 0, x, i, siblings))
         || (i >= |leaves| && HitsZero(h))
  {
    AncestorTop(i, depth);
    assert Fold(h, x, i, siblings) == Sparse(h, leaves, 0 + |siblings|, Ancestor(i, |siblings|));
    SparseLeaf(h, leaves, i);
    PathBindsSparseNode(h, leaves, 0, x, i, siblings);
  }
}
