/** The two-to-one hash of the Merkle trees, left abstract, and what a collision of it is. */
module Hashing {

  /**
   A digest: the hex string of NEAR and CosmWasm, or the hex form of 32 bytes. `ZERO` is the
   all-zero digest that pads every empty leaf, `Digest` any other. Only equality is ever used.
   */
  datatype Hash = ZERO | Digest(text: string)

  type HashFn = (Hash, Hash) -> Hash

  /** Two argument pairs that are claimed to have the same image. */
  datatype Clash = Clash(a: Hash, b: Hash, c: Hash, d: Hash)

  /** The pairs differ and `h` maps both to one digest. */
  predicate IsCollision(h: HashFn, k: Clash) {
    (k.a, k.b) != (k.c, k.d) && h(k.a, k.b) == h(k.c, k.d)
  }

  ghost predicate CollisionFree(h: HashFn) {
    forall a, b, c, d :: h(a, b) == h(c, d) ==> a == c && b == d
  }

  /** No digest stands at two places. */
  ghost predicate Distinct(s: seq<Hash>) {
    forall i, j :: 0 <= i < j < |s| ==> s[i] != s[j]
  }

  /** `list` is new to `before` and free of repetition, and `after` is both together. */
  ghost predicate AddsFresh(before: set<Hash>, list: seq<Hash>, after: set<Hash>) {
    && Distinct(list)
    && (forall x :: x in list ==> x !in before)
    && (forall x :: x in after <==> x in before || x in list)
  }

  function Pow2(n: nat): (r: nat)
    ensures r >= 1
  {
    if n == 0 then 1 else 2 * Pow2(n - 1)
  }

  /** The node index, `level` steps up, above position `k`. */
  function Ancestor(k: nat, level: nat): nat {
    if level == 0 then k else Ancestor(k / 2, level - 1)
  }

  lemma {:induction false} AncestorUp(k: nat, level: nat)
    ensures Ancestor(k, level + 1) == Ancestor(k, level) / 2
  {
    if level > 0 {
      AncestorUp(k / 2, level - 1);
    }
  }

  lemma {:induction false} AncestorMonotone(j: nat, k: nat, level: nat)
    requires j <= k
    ensures Ancestor(j, level) <= Ancestor(k, level)
  {
    if level > 0 {
      AncestorMonotone(j / 2, k / 2, level - 1);
    }
  }

  lemma {:induction false} AncestorNext(k: nat, level: nat)
    ensures Ancestor(k + 1, level) <= Ancestor(k, level) + 1
  {
    if level > 0 {
      if (k + 1) / 2 == k / 2 + 1 {
        AncestorNext(k / 2, level - 1);
      }
    }
  }

  lemma {:induction false} AncestorTop(k: nat, depth: nat)
    requires k < Pow2(depth)
    ensures Ancestor(k, depth) == 0
  {
    if depth > 0 {
      AncestorTop(k / 2, depth - 1);
    }
  }
}
