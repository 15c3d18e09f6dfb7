/**
 The plain Merkle tree over `2^depth` leaves: what the sparse cache must agree
 with. The two-input hash is a parameter; `leaves` lists the leaves that differ
 from the empty leaf `zero`.
 */
module DenseTree {

  import opened NumberTheory

  type Hash2 = (nat, nat) -> nat

  /** The root of a subtree of the given height whose leaves are all empty. */
  function ZeroAt(hash: Hash2, zero: nat, level: nat): nat
  {
    if level == 0 then zero else hash(ZeroAt(hash, zero, level - 1), ZeroAt(hash, zero, level - 1))
  }

  function LeafAt(leaves: map<nat, nat>, zero: nat, index: nat): nat
  {
    if index in leaves then leaves[index] else zero
  }

  function Node(hash: Hash2, zero: nat, leaves: map<nat, nat>, level: nat, index: nat): nat
  {
    if level == 0 then LeafAt(leaves, zero, index)
    else hash(Node(hash, zero, leaves, level - 1, 2 * index), Node(hash, zero, leaves, level - 1, 2 * index + 1))
  }

  /** The ancestor of leaf `index` at the given level. */
  function Ancestor(index: nat, level: nat): nat
  {
    if level == 0 then index else Ancestor(index, level - 1) / 2
  }

  function Sibling(index: nat): nat
  {
    if index % 2 == 0 then index + 1 else index - 1
  }

  lemma {:induction false} AncestorRange(index: nat, level: nat, depth: nat)
    requires level <= depth && index < Pow2(depth)
    ensures Ancestor(index, level) < Pow2(depth - level)
  {
    if level > 0 {
      AncestorRange(index, level - 1, depth);
    }
  }

  /** Changing one leaf changes only the nodes above it. */
  lemma {:induction false} NodeFrame(hash: Hash2, zero: nat, a: map<nat, nat>, b: map<nat, nat>, k: nat, level: nat, index: nat)
    requires forall j: nat :: j != k ==> LeafAt(a, zero, j) == LeafAt(b, zero, j)
    requires Ancestor(k, level) != index
    ensures Node(hash, zero, a, level, index) == Node(hash, zero, b, level, index)
  {
    if level > 0 {
      NodeFrame(hash, zero, a, b, k, level - 1, 2 * index);
      NodeFrame(hash, zero, a, b, k, level - 1, 2 * index + 1);
    }
  }

  /** A node is determined by the leaves below it. */
  lemma {:induction false} NodeSame(hash: Hash2, zero: nat, a: map<nat, nat>, b: map<nat, nat>, level: nat, index: nat)
    requires forall j: nat :: Ancestor(j, level) == index ==> LeafAt(a, zero, j) == LeafAt(b, zero, j)
    ensures Node(hash, zero, a, level, index) == Node(hash, zero, b, level, index)
  {
    if level > 0 {
      NodeSame(hash, zero, a, b, level - 1, 2 * index);
      NodeSame(hash, zero, a, b, level - 1, 2 * index + 1);
    }
  }

  lemma {:induction false} NodeEmpty(hash: Hash2, zero: nat, level: nat, index: nat)
    ensures Node(hash, zero, map[], level, index) == ZeroAt(hash, zero, level)
  {
    if level > 0 {
      NodeEmpty(hash, zero, level - 1, 2 * index);
      NodeEmpty(hash, zero, level - 1, 2 * index + 1);
    }
  }

  /** A node and its sibling hash, in order, to their parent. */
  lemma ParentOf(hash: Hash2, zero: nat, leaves: map<nat, nat>, level: nat, index: nat)
    ensures var n, s := Node(hash, zero, leaves, level, index), Node(hash, zero, leaves, level, Sibling(index));
            Node(hash, zero, leaves, level + 1, index / 2) == if index % 2 == 0 then hash(n, s) else hash(s, n)
  {
    var p := index / 2;
    assert Node(hash, zero, leaves, level + 1, p)
        == hash(Node(hash, zero, leaves, level, 2 * p), Node(hash, zero, leaves, level, 2 * p + 1));
    if index % 2 == 0 {
      assert 2 * p == index;
    } else {
      assert 2 * p + 1 == index;
    }
  }

  // ----- binding, up to a collision met on the way -----

  /**
   Node `index` of `level` is the same in both trees although its two children are
   not: the hash collides on two inputs that the trees contain.
   */
  predicate NodesCollide(hash: Hash2, zero: nat, a: map<nat, nat>, b: map<nat, nat>, level: nat, index: nat)
  {
    level > 0
    && (Node(hash, zero, a, level - 1, 2 * index), Node(hash, zero, a, level - 1, 2 * index + 1))
       != (Node(hash, zero, b, level - 1, 2 * index), Node(hash, zero, b, level - 1, 2 * index + 1))
    && Node(hash, zero, a, level, index) == Node(hash, zero, b, level, index)
  }

  /** The two trees of the given depth meet such a collision somewhere. */
  ghost predicate TreesCollide(hash: Hash2, zero: nat, a: map<nat, nat>, b: map<nat, nat>, depth: nat)
  {
    exists level: nat, index: nat ::
      level <= depth && index < Pow2(depth - level) && NodesCollide(hash, zero, a, b, level, index)
  }

  /** Equal nodes over different leaves: the hash collides on the way down to the leaf. */
  lemma {:induction false} NodeBinding(hash: Hash2, zero: nat, a: map<nat, nat>, b: map<nat, nat>, level: nat, leaf: nat)
    returns (at: nat)
    requires Node(hash, zero, a, level, Ancestor(leaf, level)) == Node(hash, zero, b, level, Ancestor(leaf, level))
    requires LeafAt(a, zero, leaf) != LeafAt(b, zero, leaf)
    ensures at <= level && NodesCollide(hash, zero, a, b, at, Ancestor(leaf, at))
  {
    var index, child := Ancestor(leaf, level), Ancestor(leaf, level - 1);
    assert child == 2 * index || child == 2 * index + 1;
    if Node(hash, zero, a, level - 1, child) == Node(hash, zero, b, level - 1, child) {
      at := NodeBinding(hash, zero, a, b, level - 1, leaf);
    } else {
      at := level;
    }
  }

  lemma AncestorTop(index: nat, depth: nat)
    requires index < Pow2(depth)
    ensures Ancestor(index, depth) == 0
  {
    AncestorRange(index, depth, depth);
  }

  lemma {:induction false} BelowTop(index: nat, level: nat, depth: nat)
    requires level <= depth && Ancestor(index, level) < Pow2(depth - level)
    ensures index < Pow2(depth)
  {
    if level > 0 {
      BelowTop(index, level - 1, depth);
    }
  }

  predicate SameLeaves(a: map<nat, nat>, b: map<nat, nat>, zero: nat, capacity: nat)
  {
    forall j: nat :: j < capacity ==> LeafAt(a, zero, j) == LeafAt(b, zero, j)
  }

  /** Two trees have the same root exactly when they have the same leaves, unless they meet a collision. */
  lemma SameRootIffSameLeaves(hash: Hash2, zero: nat, a: map<nat, nat>, b: map<nat, nat>, depth: nat)
    requires !TreesCollide(hash, zero, a, b, depth)
    ensures Node(hash, zero, a, depth, 0) == Node(hash, zero, b, depth, 0) <==> SameLeaves(a, b, zero, Pow2(depth))
  {
    if SameLeaves(a, b, zero, Pow2(depth)) {
      forall j: nat | Ancestor(j, depth) == 0 ensures LeafAt(a, zero, j) == LeafAt(b, zero, j) {
        BelowTop(j, depth, depth);
      }
      NodeSame(hash, zero, a, b, depth, 0);
    } else if Node(hash, zero, a, depth, 0) == Node(hash, zero, b, depth, 0) {
      var j: nat :| j < Pow2(depth) && LeafAt(a, zero, j) != LeafAt(b, zero, j);
      AncestorTop(j, depth);
      var at := NodeBinding(hash, zero, a, b, depth, j);
      AncestorRange(j, at, depth);
    }
  }
}
