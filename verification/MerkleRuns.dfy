/**
 Two runs of the tree cache, on a tree of two slots and a toy hash: a relabelled
 path that no longer verifies, and an update that ends with another root than a
 rebuild from the same mirror.
 */
module MerkleRuns {
  import opened Outcomes
  import opened NumberTheory
  import opened DenseTree
  import opened MerklePath
  import opened MerkleTree
  import Slots
  import SparseNodes

  /** Injective on the single digits that occur here. */
  const TOY2: Hash2 := (x, y) => 10 * x + y

  /** The leaf of a record is its first field; the empty leaf is 0. */
  const TOY5: Hash5 := (a, b, c, d, e) => a

  /** All identities prefer slot 0. */
  const SAME_SLOT: IdHash -> nat := id => 0

  function Record(leaf: nat): Rec
  {
    Rec(leaf, 0, 0, 0, true)
  }

  /** The root of a tree of two slots. */
  lemma RootOfTwo(leaves: map<nat, nat>)
    ensures Node(TOY2, 0, leaves, 1, 0) == 10 * LeafAt(leaves, 0, 0) + LeafAt(leaves, 0, 1)
  {
    assert Node(TOY2, 0, leaves, 0, 0) == LeafAt(leaves, 0, 0) && Node(TOY2, 0, leaves, 0, 1) == LeafAt(leaves, 0, 1);
  }

  const BOTH: seq<IdHash> := ["a", "b"]

  function MirrorOf(a: nat, b: nat): Mirror
  {
    map["a" := Record(a), "b" := Record(b)]
  }

  const ONLY_B: Mirror := map["b" := Record(2)]

  lemma ActiveInBoth(a: nat, b: nat)
    ensures IdsOf(BOTH) == ActiveIds(MirrorOf(a, b)) && BOTH[1] !in BOTH[..1] && Pow2(1) == 2
    ensures Active(MirrorOf(a, b), "a") == Some(Record(a)) && Active(MirrorOf(a, b), "b") == Some(Record(b))
    ensures forall id :: id !in BOTH ==> Active(MirrorOf(a, b), id) == None
  {
  }

  lemma ActiveInOnlyB()
    ensures IdsOf(["b"]) == ActiveIds(ONLY_B) && Active(ONLY_B, "b") == Some(Record(2))
    ensures forall id :: id != "b" ==> Active(ONLY_B, id) == None
  {
  }

  /** Both prefer slot 0: `a` gets it, and `b` is displaced to slot 1. */
  lemma SlotsOfBoth(ix: map<IdHash, nat>)
    requires ProbedInOrder(SAME_SLOT, 2, BOTH, ix)
    ensures "a" in ix && ix["a"] == 0 && "b" in ix && ix["b"] == 1
  {
    assert ProbedAt(SAME_SLOT, 2, BOTH, ix, 0) && ProbedAt(SAME_SLOT, 2, BOTH, ix, 1);
    assert BOTH[..0] == [] && BOTH[..1] == ["a"];
    assert SlotsOf(ix, BOTH[..0]) == {};
    Slots.PreferredFree(2, {}, 0, ix["a"]);
    assert SlotsOf(ix, BOTH[..1]) == {0};
    Slots.DisplacedStays(2, 0, ix["b"], ix["a"]);
  }

  lemma SlotOfB(ix: map<IdHash, nat>)
    requires ProbedInOrder(SAME_SLOT, 2, ["b"], ix)
    ensures "b" in ix && ix["b"] == 0
  {
    var order: seq<IdHash> := ["b"];
    assert ProbedAt(SAME_SLOT, 2, order, ix, 0);
    assert order[..0] == [] && SlotsOf(ix, order[..0]) == {};
    Slots.PreferredFree(2, {}, 0, ix["b"]);
  }

  lemma LeavesOfBoth(ix: map<IdHash, nat>, at: map<nat, IdHash>, fields: map<IdHash, nat>, leaves: map<nat, nat>, a: nat, b: nat)
    requires Synced(TOY5, 0, ix, at, fields, leaves, MirrorOf(a, b)) && "a" in ix && ix["a"] == 0 && "b" in ix && ix["b"] == 1
    ensures LeafAt(leaves, 0, 0) == a && LeafAt(leaves, 0, 1) == b
  {
  }

  /** With `b` alone the root says which slot it has. */
  lemma RootOfOne(ix: map<IdHash, nat>, at: map<nat, IdHash>, fields: map<IdHash, nat>, leaves: map<nat, nat>)
    requires InverseMaps(2, ix, at) && Synced(TOY5, 0, ix, at, fields, leaves, ONLY_B)
    ensures "b" in ix && Node(TOY2, 0, leaves, 1, 0) == if ix["b"] == 0 then 20 else 2
  {
    ActiveInOnlyB();
    assert Active(ONLY_B, "b").Some?;
    RootOfTwo(leaves);
    forall slot | slot in at ensures slot == ix["b"] {
      assert Active(ONLY_B, at[slot]).Some?;
    }
  }

  lemma OneLeafChanged(a: map<nat, nat>, b: map<nat, nat>)
    requires LeafAt(a, 0, 0) == LeafAt(b, 0, 0) == 1 && LeafAt(a, 0, 1) == 2 && LeafAt(b, 0, 1) == 3
    ensures !TreesCollide(TOY2, 0, a, b, 1) && !SameLeaves(a, b, 0, Pow2(1))
  {
    RootOfTwo(a);
    RootOfTwo(b);
    assert Pow2(0) == 1 && Pow2(1) == 2;
    forall level: nat, index: nat | level <= 1 && index < Pow2(1 - level) ensures !NodesCollide(TOY2, 0, a, b, level, index) {
    }
  }

  /** A tree of two slots under the toy hashes. */
  ghost predicate Toy(cache: TreeCache)
  {
    cache.depth == 1 && cache.hash2 == TOY2 && cache.hash5 == TOY5 && cache.idValue == SAME_SLOT
  }

  /** `a` and `b` placed by a rebuild, with the path of `a` cached. */
  method BothPlaced() returns (cache: TreeCache)
    ensures fresh(cache) && Toy(cache) && cache.Valid() && cache.InSync(MirrorOf(1, 2))
    ensures "a" in cache.indexById && cache.indexById["a"] == 0 && "b" in cache.indexById && cache.indexById["b"] == 1
    ensures "a" in cache.pathCache && cache.Fresh("a", cache.pathCache["a"])
  {
    cache := new TreeCache(TOY2, TOY5, SAME_SLOT, 1);
    ActiveInBoth(1, 2);
    hide Synced, InverseMaps, Slots.InsertedAll, ProbedInOrder, MirrorOf;
    var r := cache.FullRebuildSparseTreeFromMirror(MirrorOf(1, 2), BOTH, ["a"]);
    SlotsOfBoth(cache.indexById);
  }

  /**
   The relabelled path of `a` after an update of `b`: it carries the current root,
   and leads from its leaf to another one.
   */
  method StalePath() returns (cache: TreeCache)
    ensures Toy(cache) && cache.Valid() && cache.InSync(MirrorOf(1, 3))
    ensures "a" in cache.pathCache
    ensures var info := cache.pathCache["a"];
            info.root == cache.rootField && VerifyPath(cache.hash2, info.leaf, info.path, info.root) != Ok(true)
  {
    cache := BothPlaced();
    ActiveInBoth(1, 2);
    ActiveInBoth(1, 3);
    ghost var leaves := cache.nodeCache[0];
    LeavesOfBoth(cache.indexById, cache.idByIndex, cache.leafFieldById, leaves, 1, 2);
    hide Synced, InverseMaps, SparseNodes.Sparse, TreePath, VerifyPath, MirrorOf;
    var affected: seq<IdHash> := ["b"];
    var r := cache.UpdateAndRelabel(MirrorOf(1, 3), affected, affected, BOTH, MirrorOf(1, 2));
    LeavesOfBoth(cache.indexById, cache.idByIndex, cache.leafFieldById, cache.nodeCache[0], 1, 3);
    OneLeafChanged(leaves, cache.nodeCache[0]);
    cache.RelabelledPathValidIff(cache.pathCache["a"], leaves);
  }

  /** `a` and `b` placed, then `a` removed by an update: `b` stays displaced. */
  method OnlyBUpdated() returns (cache: TreeCache)
    ensures fresh(cache) && Toy(cache) && cache.Valid() && cache.InSync(ONLY_B) && cache.rootField == 2
  {
    cache := BothPlaced();
    ActiveInBoth(1, 2);
    ActiveInOnlyB();
    hide Synced, InverseMaps, SparseNodes.Sparse, MirrorOf;
    var removed: seq<IdHash> := ["a"];
    var order: seq<IdHash> := ["b"];
    var r := cache.UpdateAndRelabel(ONLY_B, removed, [], order, MirrorOf(1, 2));
    RootOfOne(cache.indexById, cache.idByIndex, cache.leafFieldById, cache.nodeCache[0]);
  }

  /** `b` placed by a rebuild: it gets its preferred slot. */
  method OnlyBRebuilt() returns (cache: TreeCache)
    ensures fresh(cache) && Toy(cache) && cache.Valid() && cache.InSync(ONLY_B) && cache.rootField == 20
  {
    cache := new TreeCache(TOY2, TOY5, SAME_SLOT, 1);
    ActiveInOnlyB();
    assert Pow2(1) == 2;
    hide Synced, InverseMaps, SparseNodes.Sparse, Slots.InsertedAll, ProbedInOrder;
    var r := cache.FullRebuildSparseTreeFromMirror(ONLY_B, ["b"], []);
    SlotOfB(cache.indexById);
    RootOfOne(cache.indexById, cache.idByIndex, cache.leafFieldById, cache.nodeCache[0]);
  }

  /** The same mirror, two roots: assigning `a`, assigning `b`, releasing `a` against assigning `b` afresh. */
  method HistoryMatters() returns (updated: TreeCache, rebuilt: TreeCache)
    ensures Toy(updated) && updated.Valid() && updated.InSync(ONLY_B)
    ensures Toy(rebuilt) && rebuilt.Valid() && rebuilt.InSync(ONLY_B)
    ensures updated.rootField != rebuilt.rootField
  {
    updated := OnlyBUpdated();
    rebuilt := OnlyBRebuilt();
  }
}
