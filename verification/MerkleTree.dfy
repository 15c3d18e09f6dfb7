/**
 The bulletin board's Merkle tree cache: identities get slots by linear probing,
 leaves are written into the sparse node store, and a mirror of the chain is
 brought into the tree by full or incremental rebuilds.

 The two- and five-input hashes and the number behind an identity hash are fixed
 but arbitrary functions.
 */
module MerkleTree {
  import opened Outcomes
  import opened NumberTheory
  import opened DenseTree
  import opened MerklePath
  import opened SparseNodes
  import Slots

  /** Identity hashes are non-empty texts. */
  type IdHash = s: string | s != "" witness "0"

  datatype Rec = Rec(cid: nat, pkNormHash: nat, pkRecHash: nat, version: nat, active: bool)

  type Mirror = map<IdHash, Rec>

  /** The active record of an identity, if it has one. */
  function Active(mirror: Mirror, id: IdHash): Option<Rec>
  {
    if id in mirror && mirror[id].active then Some(mirror[id]) else None
  }

  function ActiveIds(mirror: Mirror): set<IdHash>
  {
    set id | id in mirror && mirror[id].active
  }

  type Hash5 = (nat, nat, nat, nat, nat) -> nat

  function LeafValue(hash5: Hash5, rec: Rec): nat
  {
    hash5(rec.cid, rec.pkNormHash, rec.pkRecHash, rec.version, 1)
  }

  /** The two slot indexes are mutually inverse. */
  ghost predicate InverseMaps(cap: nat, indexById: map<IdHash, nat>, idByIndex: map<nat, IdHash>)
  {
    && (forall id :: id in indexById ==> indexById[id] in idByIndex && idByIndex[indexById[id]] == id)
    && (forall i :: i in idByIndex ==> i < cap && idByIndex[i] in indexById && indexById[idByIndex[i]] == i)
  }

  /** Each active identity's leaf is at its own slot, and every other slot is empty. */
  ghost predicate Synced(hash5: Hash5, zero: nat, indexById: map<IdHash, nat>, idByIndex: map<nat, IdHash>,
                         fields: map<IdHash, nat>, leaves: map<nat, nat>, mirror: Mirror)
  {
    && (forall id :: id in indexById <==> Active(mirror, id).Some?)
    && (forall id :: id in indexById ==>
          LeafAt(leaves, zero, indexById[id]) == LeafValue(hash5, mirror[id])
          && id in fields && fields[id] == LeafValue(hash5, mirror[id]))
    && (forall slot: nat :: slot !in idByIndex ==> LeafAt(leaves, zero, slot) == zero)
  }

  lemma SyncedWrite(hash5: Hash5, zero: nat, cap: nat, ix: map<IdHash, nat>, at: map<nat, IdHash>,
                    fields: map<IdHash, nat>, leaves: map<nat, nat>, mirror: Mirror,
                    id: IdHash, rec: Rec, r: nat, leaves': map<nat, nat>)
    requires Synced(hash5, zero, ix, at, fields, leaves, mirror) && rec.active
    requires InverseMaps(cap, ix, at) && InverseMaps(cap, ix[id := r], at[r := id])
    requires id in ix ==> ix[id] == r
    requires LeafAt(leaves', zero, r) == LeafValue(hash5, rec)
    requires forall j: nat :: j != r ==> LeafAt(leaves', zero, j) == LeafAt(leaves, zero, j)
    ensures Synced(hash5, zero, ix[id := r], at[r := id], fields[id := LeafValue(hash5, rec)], leaves', mirror[id := rec])
  {
    hide LeafAt, LeafValue;
    var ix', mirror' := ix[id := r], mirror[id := rec];
    forall other | other in ix' && other != id
      ensures LeafAt(leaves', zero, ix'[other]) == LeafValue(hash5, mirror'[other])
    {
      assert at[r := id][ix'[other]] == other && ix'[other] != r;
    }
  }

  /** The mirror with the status of `id` taken from `latest`. */
  function Merged(mirror: Mirror, latest: Mirror, id: IdHash): Mirror
  {
    if id in latest then mirror[id := latest[id]] else mirror - {id}
  }

  lemma SyncedClear(hash5: Hash5, zero: nat, cap: nat, ix: map<IdHash, nat>, at: map<nat, IdHash>,
                    fields: map<IdHash, nat>, leaves: map<nat, nat>, mirror: Mirror, latest: Mirror,
                    id: IdHash, slots: set<nat>, leaves': map<nat, nat>)
    requires Synced(hash5, zero, ix, at, fields, leaves, mirror) && Active(latest, id).None?
    requires InverseMaps(cap, ix, at)
    requires slots == if id in ix then {ix[id]} else {}
    requires forall j :: j in slots ==> LeafAt(leaves', zero, j) == zero
    requires forall j: nat :: j !in slots ==> LeafAt(leaves', zero, j) == LeafAt(leaves, zero, j)
    ensures Synced(hash5, zero, ix - {id}, at - slots, fields - {id}, leaves', Merged(mirror, latest, id))
  {
    var ix' := ix - {id};
    forall other | other in ix' ensures LeafAt(leaves', zero, ix'[other]) == LeafAt(leaves, zero, ix[other]) {
      assert at[ix[other]] == other;
    }
  }

  /** What the store holds beside the way up from `index` is what `spec` lists. */
  ghost predicate Beside(hash: Hash2, zero: nat, nodes: Nodes, index: nat, level: nat, spec: Path)
    requires level < |nodes| && level < |spec.elements| == |spec.bits|
  {
    && Get(hash, zero, nodes, level, Sibling(Ancestor(index, level))) == spec.elements[level]
    && Ancestor(index, level) % 2 == spec.bits[level]
  }

  lemma PathElement(hash: Hash2, zero: nat, depth: nat, nodes: Nodes, index: nat, level: nat, spec: Path)
    requires Sparse(hash, zero, depth, nodes) && level < depth
    requires spec == TreePath(hash, zero, nodes[0], depth, index)
    ensures Beside(hash, zero, nodes, index, level, spec)
  {
    assert NodeOk(hash, zero, nodes, level, Sibling(Ancestor(index, level)));
    TreePathAt(hash, zero, nodes[0], depth, index, level);
  }

  function PreferredSlot(idValue: IdHash -> nat, cap: nat, id: IdHash): nat
    requires cap > 0
  {
    idValue(id) % cap
  }

  function PrefsOf(idValue: IdHash -> nat, cap: nat, order: seq<IdHash>): (r: seq<nat>)
    requires cap > 0
    ensures |r| == |order| && forall i :: 0 <= i < |order| ==> r[i] == PreferredSlot(idValue, cap, order[i])
  {
    seq(|order|, i requires 0 <= i < |order| => PreferredSlot(idValue, cap, order[i]))
  }

  ghost predicate DistinctPrefs(idValue: IdHash -> nat, cap: nat, ids: set<IdHash>)
    requires cap > 0
  {
    forall a, b :: a in ids && b in ids && a != b ==> PreferredSlot(idValue, cap, a) != PreferredSlot(idValue, cap, b)
  }

  ghost predicate AtPreferred(idValue: IdHash -> nat, cap: nat, ix: map<IdHash, nat>)
    requires cap > 0
  {
    forall id :: id in ix ==> ix[id] == PreferredSlot(idValue, cap, id)
  }

  ghost predicate HoldsPrefix(mirror: Mirror, prefix: seq<IdHash>, ix: map<IdHash, nat>, at: map<nat, IdHash>, current: Mirror)
  {
    && (forall id :: id in ix <==> id in prefix)
    && |at.Keys| == |prefix|
    && (forall id :: id in prefix ==> id in current && id in mirror && current[id] == mirror[id])
  }

  lemma HeldIds(mirror: Mirror, prefix: seq<IdHash>, ix: map<IdHash, nat>, at: map<nat, IdHash>, current: Mirror)
    requires HoldsPrefix(mirror, prefix, ix, at, current)
    ensures forall id :: id in ix ==> id in prefix
  {
  }

  lemma KeyAdded(at: map<nat, IdHash>, r: nat, id: IdHash)
    requires r !in at
    ensures |at[r := id].Keys| == |at.Keys| + 1
  {
    assert at[r := id].Keys == at.Keys + {r};
  }

  lemma MemberSnoc(prefix: seq<IdHash>, id: IdHash, other: IdHash)
    ensures other in prefix + [id] <==> other == id || other in prefix
  {
  }

  lemma HoldsOneMore(mirror: Mirror, prefix: seq<IdHash>, ix: map<IdHash, nat>, at: map<nat, IdHash>, current: Mirror,
                     id: IdHash, r: nat)
    requires HoldsPrefix(mirror, prefix, ix, at, current) && r !in at && id in mirror
    ensures HoldsPrefix(mirror, prefix + [id], ix[id := r], at[r := id], current[id := mirror[id]])
  {
    KeyAdded(at, r, id);
    forall other ensures other in prefix + [id] <==> other == id || other in prefix {
      MemberSnoc(prefix, id, other);
    }
  }

  /** The slots of the identities in `ids`. */
  function SlotsOf(ix: map<IdHash, nat>, ids: seq<IdHash>): set<nat>
  {
    set id | id in ids && id in ix :: ix[id]
  }

  /** Identity `k` sits in the first slot, from its preferred one on, that the identities before it leave free. */
  ghost predicate ProbedAt(idValue: IdHash -> nat, cap: nat, order: seq<IdHash>, ix: map<IdHash, nat>, k: nat)
    requires cap > 0 && k < |order|
  {
    order[k] in ix && Slots.FirstFree(cap, SlotsOf(ix, order[..k]), PreferredSlot(idValue, cap, order[k]), ix[order[k]])
  }

  /** The slots are those that probing for the identities in the given order assigns. */
  ghost predicate ProbedInOrder(idValue: IdHash -> nat, cap: nat, order: seq<IdHash>, ix: map<IdHash, nat>)
    requires cap > 0
  {
    (forall id :: id in ix <==> id in order) && forall k :: 0 <= k < |order| ==> ProbedAt(idValue, cap, order, ix, k)
  }

  lemma ProbedStep(idValue: IdHash -> nat, cap: nat, order: seq<IdHash>, ix: map<IdHash, nat>, at: map<nat, IdHash>,
                   id: IdHash, r: nat)
    requires cap > 0 && InverseMaps(cap, ix, at) && id !in order && ProbedInOrder(idValue, cap, order, ix)
    requires Slots.FirstFree(cap, at.Keys, PreferredSlot(idValue, cap, id), r)
    ensures ProbedInOrder(idValue, cap, order + [id], ix[id := r])
  {
    hide PreferredSlot, Slots.FirstFree;
    var ix', order' := ix[id := r], order + [id];
    forall k | 0 <= k < |order'| ensures ProbedAt(idValue, cap, order', ix', k) {
      if k < |order| {
        assert ProbedAt(idValue, cap, order, ix, k);
        assert order'[..k] == order[..k] && SlotsOf(ix', order'[..k]) == SlotsOf(ix, order[..k]);
      } else {
        assert order'[..k] == order;
        OccupiedSlots(cap, order, ix, ix', at);
      }
    }
  }

  lemma OccupiedSlots(cap: nat, order: seq<IdHash>, ix: map<IdHash, nat>, ix': map<IdHash, nat>, at: map<nat, IdHash>)
    requires InverseMaps(cap, ix, at) && (forall id :: id in ix <==> id in order)
    requires forall id :: id in ix ==> id in ix' && ix'[id] == ix[id]
    ensures SlotsOf(ix', order) == at.Keys
  {
    forall slot | slot in at ensures slot in SlotsOf(ix', order) {
      assert at[slot] in order && ix'[at[slot]] == slot;
    }
  }

  /** Probing in a given order leaves no choice of slots. */
  lemma {:induction false} ProbedUnique(idValue: IdHash -> nat, cap: nat, order: seq<IdHash>,
                                        ix: map<IdHash, nat>, ix': map<IdHash, nat>, k: nat)
    requires cap > 0 && ProbedInOrder(idValue, cap, order, ix) && ProbedInOrder(idValue, cap, order, ix') && k <= |order|
    ensures forall i :: 0 <= i < k ==> order[i] in ix && order[i] in ix' && ix[order[i]] == ix'[order[i]]
  {
    hide PreferredSlot;
    if k > 0 {
      var id, before := order[k - 1], order[..k - 1];
      ProbedUnique(idValue, cap, order, ix, ix', k - 1);
      assert ProbedAt(idValue, cap, order, ix, k - 1) && ProbedAt(idValue, cap, order, ix', k - 1);
      forall other | other in before ensures other in ix && other in ix' && ix[other] == ix'[other] {
        var i :| 0 <= i < |before| && before[i] == other;
        assert order[i] == other;
      }
      assert SlotsOf(ix, before) == SlotsOf(ix', before);
      Slots.FirstFreeUnique(cap, SlotsOf(ix, before), PreferredSlot(idValue, cap, id), ix[id], ix'[id]);
    }
  }

  lemma ProbedSame(idValue: IdHash -> nat, cap: nat, order: seq<IdHash>, ix: map<IdHash, nat>, ix': map<IdHash, nat>)
    requires cap > 0 && ProbedInOrder(idValue, cap, order, ix) && ProbedInOrder(idValue, cap, order, ix')
    ensures ix == ix'
  {
    ProbedUnique(idValue, cap, order, ix, ix', |order|);
    forall id | id in ix ensures id in ix' && ix[id] == ix'[id] {
      var i :| 0 <= i < |order| && order[i] == id;
    }
  }

  /** Exactly the first `i` identities of `order` have slots, inserted in that order. */
  ghost predicate Placed(idValue: IdHash -> nat, cap: nat, mirror: Mirror, order: seq<IdHash>, i: nat,
                         ix: map<IdHash, nat>, at: map<nat, IdHash>, current: Mirror)
    requires cap > 0 && i <= |order|
  {
    && HoldsPrefix(mirror, order[..i], ix, at, current)
    && Slots.InsertedAll(cap, {}, PrefsOf(idValue, cap, order[..i]), at.Keys)
    && ProbedInOrder(idValue, cap, order[..i], ix)
    && (DistinctPrefs(idValue, cap, ActiveIds(mirror)) ==> AtPreferred(idValue, cap, ix))
  }

  lemma PreferredTaken(idValue: IdHash -> nat, cap: nat, ix: map<IdHash, nat>, at: map<nat, IdHash>, id: IdHash, ids: set<IdHash>)
    requires cap > 0 && InverseMaps(cap, ix, at) && AtPreferred(idValue, cap, ix)
    requires id !in ix && id in ids && ix.Keys <= ids && DistinctPrefs(idValue, cap, ids)
    ensures PreferredSlot(idValue, cap, id) !in at
  {
  }

  lemma PlacedStep(idValue: IdHash -> nat, cap: nat, mirror: Mirror, order: seq<IdHash>, i: nat,
                   ix: map<IdHash, nat>, at: map<nat, IdHash>, current: Mirror, r: nat)
    requires cap > 0 && i < |order| && Placed(idValue, cap, mirror, order, i, ix, at, current)
    requires InverseMaps(cap, ix, at) && IdsOf(order) == ActiveIds(mirror)
    requires order[i] !in order[..i] && order[i] in mirror
    requires Slots.FirstFree(cap, at.Keys, PreferredSlot(idValue, cap, order[i]), r)
    ensures Placed(idValue, cap, mirror, order, i + 1, ix[order[i] := r], at[r := order[i]],
                   current[order[i] := mirror[order[i]]])
  {
    hide PreferredSlot, PrefsOf, HoldsPrefix, Slots.InsertedAll, ProbedInOrder, Slots.FirstFree, IdsOf;
    var id := order[i];
    assert order[..i + 1] == order[..i] + [id];
    InsertedStep(idValue, cap, order, i, at.Keys, r);
    assert at[r := id].Keys == at.Keys + {r};
    HoldsOneMore(mirror, order[..i], ix, at, current, id, r);
    ProbedStep(idValue, cap, order[..i], ix, at, id, r);
    HeldIds(mirror, order[..i], ix, at, current);
    if DistinctPrefs(idValue, cap, ActiveIds(mirror)) {
      KeptPreferred(idValue, cap, mirror, order, i, ix, at, r);
    }
  }

  lemma InsertedStep(idValue: IdHash -> nat, cap: nat, order: seq<IdHash>, i: nat, taken: set<nat>, r: nat)
    requires cap > 0 && i < |order|
    requires Slots.InsertedAll(cap, {}, PrefsOf(idValue, cap, order[..i]), taken)
    requires Slots.FirstFree(cap, taken, PreferredSlot(idValue, cap, order[i]), r)
    ensures r !in taken && Slots.InsertedAll(cap, {}, PrefsOf(idValue, cap, order[..i + 1]), taken + {r})
  {
    var p := PreferredSlot(idValue, cap, order[i]);
    assert order[..i + 1] == order[..i] + [order[i]];
    assert PrefsOf(idValue, cap, order[..i + 1]) == PrefsOf(idValue, cap, order[..i]) + [p];
    assert Slots.Inserted(cap, taken, p, taken + {r});
    Slots.InsertedSnoc(cap, {}, PrefsOf(idValue, cap, order[..i]), taken, p, taken + {r});
  }

  lemma KeptPreferred(idValue: IdHash -> nat, cap: nat, mirror: Mirror, order: seq<IdHash>, i: nat,
                      ix: map<IdHash, nat>, at: map<nat, IdHash>, r: nat)
    requires cap > 0 && i < |order| && InverseMaps(cap, ix, at) && AtPreferred(idValue, cap, ix)
    requires IdsOf(order) == ActiveIds(mirror) && order[i] !in order[..i]
    requires forall id :: id in ix ==> id in order[..i]
    requires DistinctPrefs(idValue, cap, ActiveIds(mirror))
    requires Slots.FirstFree(cap, at.Keys, PreferredSlot(idValue, cap, order[i]), r)
    ensures r == PreferredSlot(idValue, cap, order[i]) && AtPreferred(idValue, cap, ix[order[i] := r])
  {
    var id := order[i];
    assert id in IdsOf(order);
    forall other | other in ix ensures other in ActiveIds(mirror) {
      assert other in order[..i] && other in IdsOf(order);
    }
    StayPreferred(idValue, cap, ix, at, id, ActiveIds(mirror), r);
  }

  /** An identity whose preferred slot no other one shares gets it, and the others keep theirs. */
  lemma StayPreferred(idValue: IdHash -> nat, cap: nat, ix: map<IdHash, nat>, at: map<nat, IdHash>,
                      id: IdHash, ids: set<IdHash>, r: nat)
    requires cap > 0 && InverseMaps(cap, ix, at) && AtPreferred(idValue, cap, ix)
    requires id !in ix && id in ids && ix.Keys <= ids && DistinctPrefs(idValue, cap, ids)
    requires Slots.FirstFree(cap, at.Keys, PreferredSlot(idValue, cap, id), r)
    ensures r == PreferredSlot(idValue, cap, id) && AtPreferred(idValue, cap, ix[id := r])
  {
    PreferredTaken(idValue, cap, ix, at, id, ids);
    Slots.PreferredFree(cap, at.Keys, PreferredSlot(idValue, cap, id), r);
  }

  function IdsOf(order: seq<IdHash>): set<IdHash>
  {
    set id | id in order
  }

  datatype PathInfo = PathInfo(index: nat, leaf: nat, root: nat, path: Path)

  class TreeCache {
    const hash2: Hash2
    const hash5: Hash5
    const idValue: IdHash -> nat
    const depth: nat
    const zeroes: seq<nat>

    var nodeCache: Nodes
    var indexById: map<IdHash, nat>
    var idByIndex: map<nat, IdHash>
    var leafFieldById: map<IdHash, nat>
    var rootField: nat
    var pathCache: map<IdHash, PathInfo>

    // ----- abstraction -----

    /** The leaf of an empty slot. */
    function Zero(): nat
    {
      hash5(0, 0, 0, 0, 0)
    }

    function Capacity(): nat
    {
      Pow2(depth)
    }

    function Preferred(id: IdHash): nat
    {
      PreferredSlot(idValue, Capacity(), id)
    }

    function LeafOf(rec: Rec): nat
    {
      LeafValue(hash5, rec)
    }

    ghost predicate ValidConsts()
    {
      && 1 <= depth <= 30 && |zeroes| == depth + 1
      && forall l :: 0 <= l <= depth ==> zeroes[l] == ZeroAt(hash2, Zero(), l)
    }

    ghost predicate ValidNodes()
      reads `nodeCache, `rootField
    {
      && ValidConsts() && Sparse(hash2, Zero(), depth, nodeCache)
      && rootField == Node(hash2, Zero(), nodeCache[0], depth, 0)
    }

    ghost predicate Inverse()
      reads `indexById, `idByIndex
    {
      InverseMaps(Capacity(), indexById, idByIndex)
    }

    ghost function Leaf(slot: nat): nat
      requires |nodeCache| > 0
      reads `nodeCache
    {
      LeafAt(nodeCache[0], Zero(), slot)
    }

    ghost predicate Valid()
      reads `nodeCache, `rootField, `indexById, `idByIndex
    {
      ValidNodes() && Inverse()
    }

    ghost predicate InSync(mirror: Mirror)
      requires |nodeCache| > 0
      reads `nodeCache, `indexById, `idByIndex, `leafFieldById
    {
      Synced(hash5, Zero(), indexById, idByIndex, leafFieldById, nodeCache[0], mirror)
    }

    // ----- construction -----

    static method BuildZeroes(hash2: Hash2, zero: nat, depth: nat) returns (zeroes: seq<nat>)
      ensures |zeroes| == depth + 1 && forall l :: 0 <= l <= depth ==> zeroes[l] == ZeroAt(hash2, zero, l)
    {
      zeroes := [zero];
      for i := 1 to depth + 1
        invariant |zeroes| == i && forall l :: 0 <= l < i ==> zeroes[l] == ZeroAt(hash2, zero, l)
      {
        zeroes := zeroes + [hash2(zeroes[i - 1], zeroes[i - 1])];
      }
    }

    constructor (hash2: Hash2, hash5: Hash5, idValue: IdHash -> nat, depth: nat)
      requires 1 <= depth <= 30
      ensures Valid() && InSync(map[]) && this.depth == depth && this.hash2 == hash2 && this.hash5 == hash5
      ensures this.idValue == idValue
      ensures indexById == map[] && idByIndex == map[]
    {
      var z := BuildZeroes(hash2, hash5(0, 0, 0, 0, 0), depth);
      this.hash2, this.hash5, this.idValue, this.depth, this.zeroes := hash2, hash5, idValue, depth, z;
      nodeCache, indexById, idByIndex, leafFieldById, pathCache := [], map[], map[], map[], map[];
      rootField := 0;
      new;
      InitSparseTreeCache();
    }

    method InitSparseTreeCache()
      requires ValidConsts()
      modifies this
      ensures Valid() && InSync(map[])
      ensures indexById == map[] && idByIndex == map[] && pathCache == map[]
    {
      indexById, idByIndex, leafFieldById, pathCache := map[], map[], map[], map[];
      nodeCache := seq(depth + 1, _ => map[]);
      rootField := zeroes[depth];
      EmptyIsSparse(hash2, Zero(), depth, nodeCache);
      NodeEmpty(hash2, Zero(), depth, 0);
    }

    // ----- nodes -----

    function GetNodeValue(level: nat, index: nat): nat
      requires ValidConsts() && level < |nodeCache| == depth + 1
      reads this
      ensures GetNodeValue(level, index) == Get(hash2, Zero(), nodeCache, level, index)
    {
      if index in nodeCache[level] then nodeCache[level][index] else zeroes[level]
    }

    method SetNodeValue(level: nat, index: nat, value: nat)
      requires ValidConsts() && level < |nodeCache| == depth + 1
      modifies `nodeCache
      ensures nodeCache == old(nodeCache)[level := Put(old(nodeCache)[level], index, value, ZeroAt(hash2, Zero(), level))]
    {
      var m := nodeCache[level];
      if value == zeroes[level] {
        nodeCache := nodeCache[level := m - {index}];
      } else {
        nodeCache := nodeCache[level := m[index := value]];
      }
    }

    /** Recompute the parent of node `idx` of `level` from the node and its sibling. */
    method RehashParent(level: nat, idx: nat)
      requires ValidConsts() && level < depth && |nodeCache| == depth + 1
      modifies `nodeCache
      ensures var base := idx - idx % 2;
              var parent := hash2(Get(hash2, Zero(), old(nodeCache), level, base),
                                  Get(hash2, Zero(), old(nodeCache), level, base + 1));
              nodeCache == old(nodeCache)[level + 1 := Put(old(nodeCache)[level + 1], idx / 2, parent,
                                                           ZeroAt(hash2, Zero(), level + 1))]
    {
      var base := idx - idx % 2;
      var left, right := GetNodeValue(level, base), GetNodeValue(level, base + 1);
      SetNodeValue(level + 1, idx / 2, hash2(left, right));
    }

    /** The leaf-to-root loop. */
    method Climb(index: nat, ghost before: Nodes)
      requires ValidConsts() && Climbing(hash2, Zero(), depth, before, nodeCache, index, 0)
      modifies `nodeCache
      ensures Climbing(hash2, Zero(), depth, before, nodeCache, index, depth)
      ensures nodeCache[0] == old(nodeCache[0])
    {
      var idx := index;
      for level := 0 to depth
        invariant Climbing(hash2, Zero(), depth, before, nodeCache, index, level)
        invariant idx == Ancestor(index, level) && nodeCache[0] == old(nodeCache[0])
      {
        ClimbTurn(hash2, Zero(), depth, before, nodeCache, index, level);
        RehashParent(level, idx);
        idx := idx / 2;
      }
    }

    /** Writing or clearing one leaf keeps the store equal to the dense tree over the new leaves. */
    method UpdateSparseLeafAtIndex(index: nat, leafField: Option<nat>)
      requires ValidNodes() && index < Capacity()
      modifies `nodeCache, `rootField
      ensures ValidNodes()
      ensures Leaf(index) == (if leafField.Some? then leafField.value else Zero())
      ensures forall j: nat :: j != index ==>
                LeafAt(nodeCache[0], Zero(), j) == LeafAt(old(nodeCache[0]), Zero(), j)
    {
      ghost var before := nodeCache;
      var value := if leafField.Some? then leafField.value else zeroes[0];
      ClimbStart(hash2, Zero(), depth, nodeCache, index, value);
      SetNodeValue(0, index, value);
      Climb(index, before);
      ClimbDone(hash2, Zero(), depth, before, nodeCache, index);
      rootField := GetNodeValue(depth, 0);
      assert NodeOk(hash2, Zero(), nodeCache, depth, 0);
    }

    // ----- slots -----

    /** The slot of an identity, allocating by linear probing from its preferred slot. */
    method AssignIndexForIdHash(id: IdHash) returns (r: Outcome<nat>)
      requires ValidConsts() && Inverse()
      modifies `indexById, `idByIndex
      ensures Inverse()
      ensures r.Throw? ==> indexById == old(indexById) && idByIndex == old(idByIndex) && id !in indexById
      ensures r.Throw? <==> id !in old(indexById) && forall slot :: 0 <= slot < Capacity() ==> slot in old(idByIndex)
      ensures r.Ok? ==> r.value < Capacity() && indexById == old(indexById)[id := r.value]
      ensures r.Ok? && id in old(indexById) ==> indexById == old(indexById) && idByIndex == old(idByIndex)
      ensures r.Ok? && id !in old(indexById) ==>
                && idByIndex == old(idByIndex)[r.value := id]
                && Slots.FirstFree(Capacity(), old(idByIndex).Keys, Preferred(id), r.value)
    {
      if id in indexById {
        return Ok(indexById[id]);
      }
      var capacity := Capacity();
      var idx := Preferred(id);
      for steps := 0 to capacity
        invariant idByIndex == old(idByIndex) && indexById == old(indexById)
        invariant steps < capacity ==> idx == Slots.ProbeAt(capacity, Preferred(id), steps)
        invariant forall j :: 0 <= j < steps ==> Slots.ProbeAt(capacity, Preferred(id), j) in idByIndex.Keys
      {
        if idx !in idByIndex || idByIndex[idx] == id {
          assert Slots.FirstFreeAt(capacity, idByIndex.Keys, Preferred(id), steps, idx);
          indexById := indexById[id := idx];
          idByIndex := idByIndex[idx := id];
          return Ok(idx);
        }
        Slots.NextIsProbe(capacity, Preferred(id), steps);
        idx := Slots.Next(capacity, idx);
      }
      Slots.ProbeExhausted(capacity, idByIndex.Keys, Preferred(id));
      r := Throw("tree_capacity_exceeded:no_free_slot_for:" + id);
    }

    method ReleaseIndexForIdHash(id: IdHash) returns (r: Option<nat>)
      requires Inverse()
      modifies `indexById, `idByIndex
      ensures Inverse()
      ensures r == (if id in old(indexById) then Some(old(indexById)[id]) else None)
      ensures indexById == old(indexById) - {id}
      ensures idByIndex == old(idByIndex) - (if r.Some? then {r.value} else {})
    {
      if id !in indexById {
        return None;
      }
      var idx := indexById[id];
      indexById := indexById - {id};
      if idx in idByIndex && idByIndex[idx] == id {
        idByIndex := idByIndex - {idx};
      }
      r := Some(idx);
    }

    // ----- bringing one identity up to date -----

    method WriteActive(id: IdHash, rec: Rec, ghost mirror: Mirror) returns (r: Outcome<nat>)
      requires Valid() && InSync(mirror) && rec.active
      modifies this
      ensures Valid()
      ensures r.Ok? ==> InSync(mirror[id := rec])
      ensures r.Ok? ==> indexById == old(indexById)[id := r.value]
      ensures r.Ok? && id in old(indexById) ==> idByIndex == old(idByIndex)
      ensures r.Ok? && id !in old(indexById) ==>
                && Slots.FirstFree(Capacity(), old(idByIndex).Keys, Preferred(id), r.value)
                && idByIndex == old(idByIndex)[r.value := id]
      ensures r.Throw? ==> InSync(mirror) && idByIndex == old(idByIndex)
      ensures r.Throw? <==> id !in old(indexById) && forall slot :: 0 <= slot < Capacity() ==> slot in old(idByIndex)
      ensures pathCache == old(pathCache)
    {
      hide Synced, LeafValue;
      r := AssignIndexForIdHash(id);
      if r.Throw? {
        return;
      }
      UpdateSparseLeafAtIndex(r.value, Some(LeafOf(rec)));
      leafFieldById := leafFieldById[id := LeafOf(rec)];
      assert idByIndex == old(idByIndex)[r.value := id];
      SyncedWrite(hash5, Zero(), Capacity(), old(indexById), old(idByIndex), old(leafFieldById), old(nodeCache[0]),
                  mirror, id, rec, r.value, nodeCache[0]);
    }

    method ClearInactive(id: IdHash, ghost mirror: Mirror, ghost latest: Mirror)
      requires Valid() && InSync(mirror) && Active(latest, id).None?
      modifies this
      ensures Valid() && InSync(Merged(mirror, latest, id))
      ensures indexById == old(indexById) - {id}
      ensures forall other :: other in indexById ==> indexById[other] == old(indexById)[other]
      ensures pathCache == old(pathCache) - {id}
    {
      var oldIdx := ReleaseIndexForIdHash(id);
      if oldIdx.Some? {
        UpdateSparseLeafAtIndex(oldIdx.value, None);
      }
      leafFieldById := leafFieldById - {id};
      pathCache := pathCache - {id};
      SyncedClear(hash5, Zero(), Capacity(), old(indexById), old(idByIndex), old(leafFieldById), old(nodeCache[0]),
                  mirror, latest, id, if oldIdx.Some? then {oldIdx.value} else {}, nodeCache[0]);
    }

    // ----- paths -----

    /** `info` is the authentication path of the identity's slot in the current tree. */
    ghost predicate Fresh(id: IdHash, info: PathInfo)
      requires |nodeCache| > 0
      reads `nodeCache, `indexById, `rootField
    {
      id in indexById && info.index == indexById[id] && info.root == rootField && TakenOver(nodeCache[0], info)
    }

    /** Leaf and path are those of the slot in the tree over `leaves`. */
    ghost predicate TakenOver(leaves: map<nat, nat>, info: PathInfo)
    {
      && info.index < Capacity() && info.leaf == LeafAt(leaves, Zero(), info.index)
      && info.path == TreePath(hash2, Zero(), leaves, depth, info.index)
    }

    /** A recomputed path is always the one of the current tree. */
    method RecomputePathCacheForId(id: IdHash, ghost mirror: Mirror) returns (r: Option<PathInfo>)
      requires Valid() && InSync(mirror)
      modifies `pathCache
      ensures r.Some? <==> id in indexById
      ensures r.Some? ==> Fresh(id, r.value) && pathCache == old(pathCache)[id := r.value]
      ensures r.None? ==> pathCache == old(pathCache) - {id}
    {
      if id !in indexById {
        pathCache := pathCache - {id};
        return None;
      }
      var idx0 := indexById[id];
      var leaf := leafFieldById[id];  // recorded together with the slot
      var path := ExtractPath(idx0);
      var info := PathInfo(idx0, leaf, rootField, path);
      pathCache := pathCache[id := info];
      r := Some(info);
    }

    method ExtractPath(idx0: nat) returns (path: Path)
      requires ValidNodes()
      ensures path == TreePath(hash2, Zero(), nodeCache[0], depth, idx0)
    {
      ghost var spec := TreePath(hash2, Zero(), nodeCache[0], depth, idx0);
      forall l | 0 <= l < depth ensures Beside(hash2, Zero(), nodeCache, idx0, l, spec) {
        PathElement(hash2, Zero(), depth, nodeCache, idx0, l, spec);
      }
      path := WalkUp(idx0, spec);
    }

    /** The loop from the leaf to the root, reading the sibling at each level. */
    method WalkUp(idx0: nat, ghost spec: Path) returns (path: Path)
      requires ValidConsts() && |nodeCache| == depth + 1 && |spec.elements| == |spec.bits| == depth
      requires forall l :: 0 <= l < depth ==> Beside(hash2, Zero(), nodeCache, idx0, l, spec)
      ensures path == spec
    {
      var elements: seq<nat>, bits: seq<nat> := [], [];
      var idx := idx0;
      for level := 0 to depth
        invariant idx == Ancestor(idx0, level)
        invariant elements == spec.elements[..level] && bits == spec.bits[..level]
      {
        assert Beside(hash2, Zero(), nodeCache, idx0, level, spec);
        elements := elements + [GetNodeValue(level, Sibling(idx))];
        bits := bits + [idx % 2];
        idx := idx / 2;
      }
      path := Path(elements, bits);
    }

    /**
     A freshly computed path leads from the identity's leaf to the current root,
     natively and in the circuit, and any other leaf that passes at that index
     exhibits a collision of the hash on the two folds.
     */
    lemma FreshPathAccepted(id: IdHash, info: PathInfo)
      requires Valid() && Fresh(id, info)
      ensures VerifyPath(hash2, info.leaf, info.path, info.root) == Ok(true)
      ensures forall q :: IsPrime(q) && MerklePath.FieldInputs(hash2, q, info.leaf, info.path)
                          ==> Accepts(hash2, q, info.leaf, info.root, info.path)
      ensures forall leaf :: VerifyPath(hash2, leaf, info.path, info.root) == Ok(true) && leaf != info.leaf
                             ==> FoldsMeet(hash2, leaf, info.path, info.leaf, info.path)
    {
      TreePathCorrect(hash2, Zero(), nodeCache[0], depth, info.index);
      forall q | IsPrime(q) && MerklePath.FieldInputs(hash2, q, info.leaf, info.path)
        ensures Accepts(hash2, q, info.leaf, info.root, info.path)
      {
        CircuitEquivalence(hash2, q, info.leaf, info.root, info.path);
      }
    }

    /** Cached paths get the current root as their label; leaf and siblings stay. */
    method RelabelPathCache(except: Option<IdHash>)
      modifies `pathCache
      ensures pathCache.Keys == old(pathCache).Keys
      ensures forall id :: id in pathCache ==>
                pathCache[id] == if except == Some(id) then old(pathCache)[id] else old(pathCache)[id].(root := rootField)
    {
      var ids := pathCache.Keys;
      while ids != {}
        invariant ids <= pathCache.Keys == old(pathCache).Keys
        invariant forall id :: id in pathCache ==>
                    pathCache[id] == if id in ids || except == Some(id) then old(pathCache)[id]
                                     else old(pathCache)[id].(root := rootField)
        decreases |ids|
      {
        var id :| id in ids;
        ids := ids - {id};
        if except != Some(id) {
          pathCache := pathCache[id := pathCache[id].(root := rootField)];
        }
      }
    }

    /**
     A path taken over earlier leaves and relabelled with the current root verifies
     exactly if no leaf of the tree has changed since, unless the two trees meet a
     collision of the hash.
     */
    lemma RelabelledPathValidIff(info: PathInfo, leaves: map<nat, nat>)
      requires ValidNodes() && TakenOver(leaves, info) && info.root == rootField
      ensures SameLeaves(leaves, nodeCache[0], Zero(), Capacity()) ==> VerifyPath(hash2, info.leaf, info.path, info.root) == Ok(true)
      ensures VerifyPath(hash2, info.leaf, info.path, info.root) == Ok(true)
              ==> SameLeaves(leaves, nodeCache[0], Zero(), Capacity()) || TreesCollide(hash2, Zero(), leaves, nodeCache[0], depth)
    {
      TreePathCorrect(hash2, Zero(), leaves, depth, info.index);
      if SameLeaves(leaves, nodeCache[0], Zero(), Capacity()) {
        forall j: nat | Ancestor(j, depth) == 0 ensures LeafAt(leaves, Zero(), j) == LeafAt(nodeCache[0], Zero(), j) {
          BelowTop(j, depth, depth);
        }
        NodeSame(hash2, Zero(), leaves, nodeCache[0], depth, 0);
      } else if !TreesCollide(hash2, Zero(), leaves, nodeCache[0], depth) {
        SameRootIffSameLeaves(hash2, Zero(), leaves, nodeCache[0], depth);
      }
    }

    ghost predicate AllFresh()
      requires |nodeCache| > 0
      reads this
    {
      forall id :: id in pathCache ==> Fresh(id, pathCache[id])
    }

    method Preheat(ids: seq<IdHash>, ghost mirror: Mirror)
      requires Valid() && InSync(mirror)
      modifies `pathCache
      ensures old(AllFresh()) ==> AllFresh()
      ensures forall k :: 0 <= k < |ids| && ids[k] in indexById ==> ids[k] in pathCache
      ensures forall id :: id in ids && id in pathCache ==> Fresh(id, pathCache[id])
      ensures forall id :: id !in ids ==> (id in pathCache <==> id in old(pathCache))
      ensures forall id :: id !in ids && id in pathCache ==> pathCache[id] == old(pathCache)[id]
    {
      hide Fresh, InSync, Inverse;
      for i := 0 to |ids|
        invariant forall k :: 0 <= k < i && ids[k] in indexById ==> ids[k] in pathCache
        invariant forall id :: id in ids[..i] && id in pathCache ==> Fresh(id, pathCache[id])
        invariant forall id :: id !in ids[..i] ==> (id in pathCache <==> id in old(pathCache))
        invariant forall id :: id !in ids[..i] && id in pathCache ==> pathCache[id] == old(pathCache)[id]
      {
        assert ids[..i + 1] == ids[..i] + [ids[i]];
        var _ := RecomputePathCacheForId(ids[i], mirror);
      }
      assert ids[..|ids|] == ids;
    }

    // ----- rebuilds -----

    function Prefs(order: seq<IdHash>): seq<nat>
    {
      PrefsOf(idValue, Capacity(), order)
    }

    /** Every identity sits at its preferred slot. */
    ghost predicate AllPreferred()
      reads this
    {
      AtPreferred(idValue, Capacity(), indexById)
    }

    ghost predicate PreferredDistinct(ids: set<IdHash>)
    {
      DistinctPrefs(idValue, Capacity(), ids)
    }

    ghost predicate Rebuilding(mirror: Mirror, order: seq<IdHash>, i: nat, current: Mirror)
      requires i <= |order|
      reads this
    {
      && Valid() && InSync(current) && pathCache == map[]
      && Placed(idValue, Capacity(), mirror, order, i, indexById, idByIndex, current)
    }

    method RebuildEntry(mirror: Mirror, order: seq<IdHash>, i: nat, ghost current: Mirror)
      requires i < |order| <= Capacity() && Rebuilding(mirror, order, i, current)
      requires IdsOf(order) == ActiveIds(mirror) && order[i] !in order[..i]
      modifies this
      ensures order[i] in mirror && Rebuilding(mirror, order, i + 1, current[order[i] := mirror[order[i]]])
    {
      var id := order[i];
      assert id in IdsOf(order);
      NotFull();
      var idx := WriteActive(id, mirror[id], current);
      PlacedStep(idValue, Capacity(), mirror, order, i, old(indexById), old(idByIndex), current, idx.value);
    }

    lemma RebuiltIsSynced(mirror: Mirror, order: seq<IdHash>, current: Mirror)
      requires Rebuilding(mirror, order, |order|, current) && IdsOf(order) == ActiveIds(mirror)
      ensures InSync(mirror) && AllFresh()
      ensures Slots.InsertedAll(Capacity(), {}, Prefs(order), idByIndex.Keys)
      ensures ProbedInOrder(idValue, Capacity(), order, indexById)
      ensures PreferredDistinct(ActiveIds(mirror)) ==> AllPreferred()
    {
      assert order[..|order|] == order;
      forall id ensures id in indexById <==> Active(mirror, id).Some? {
        assert id in IdsOf(order) <==> id in ActiveIds(mirror);
      }
    }

    /** Rebuild from the mirror. `order` is the sorted list of its active identities. */
    method FullRebuildSparseTreeFromMirror(mirror: Mirror, order: seq<IdHash>, preheat: seq<IdHash>) returns (r: Outcome<()>)
      requires Valid()
      requires IdsOf(order) == ActiveIds(mirror) && forall i :: 0 <= i < |order| ==> order[i] !in order[..i]
      modifies this
      ensures Valid()
      ensures r.Throw? <==> |order| > Capacity()
      ensures r.Throw? ==> nodeCache == old(nodeCache) && indexById == old(indexById) && idByIndex == old(idByIndex)
      ensures r.Ok? ==> InSync(mirror) && AllFresh()
      ensures r.Ok? ==> Slots.InsertedAll(Capacity(), {}, Prefs(order), idByIndex.Keys)
      ensures r.Ok? ==> ProbedInOrder(idValue, Capacity(), order, indexById)
      ensures r.Ok? ==> forall k :: 0 <= k < |preheat| && preheat[k] in indexById ==> preheat[k] in pathCache
      ensures r.Ok? && PreferredDistinct(ActiveIds(mirror)) ==> AllPreferred()
    {
      if |order| > Capacity() {
        return Throw("tree_capacity_exceeded");
      }
      RebuildAll(mirror, order);
      Preheat(preheat, mirror);
      r := Ok(());
    }

    method RebuildAll(mirror: Mirror, order: seq<IdHash>)
      requires ValidConsts() && |order| <= Capacity()
      requires IdsOf(order) == ActiveIds(mirror) && forall i :: 0 <= i < |order| ==> order[i] !in order[..i]
      modifies this
      ensures Valid() && InSync(mirror) && AllFresh()
      ensures Slots.InsertedAll(Capacity(), {}, Prefs(order), idByIndex.Keys)
      ensures ProbedInOrder(idValue, Capacity(), order, indexById)
      ensures PreferredDistinct(ActiveIds(mirror)) ==> AllPreferred()
    {
      InitSparseTreeCache();
      ghost var current: Mirror := map[];
      for i := 0 to |order|
        invariant Rebuilding(mirror, order, i, current)
      {
        RebuildEntry(mirror, order, i, current);
        current := current[order[i] := mirror[order[i]]];
      }
      RebuiltIsSynced(mirror, order, current);
    }

    lemma NotFull()
      requires Inverse() && |idByIndex.Keys| < Capacity()
      ensures exists slot :: 0 <= slot < Capacity() && slot !in idByIndex
    {
      var slot := Slots.FreeExists(Capacity(), idByIndex.Keys);
    }

    /** All identities with slots are in `universe` and at their preferred slots. */
    ghost predicate Settled(universe: set<IdHash>)
      reads this
    {
      AllPreferred() && indexById.Keys <= universe && PreferredDistinct(universe)
    }

    /** One affected identity. */
    method CatchUp(id: IdHash, mirror: Mirror, ghost current: Mirror, ghost universe: set<IdHash>) returns (r: Outcome<()>)
      requires Valid() && InSync(current) && ActiveIds(mirror) <= universe
      modifies this
      ensures Valid()
      ensures r.Ok? ==> InSync(Merged(current, mirror, id))
      ensures r.Throw? ==> forall slot :: 0 <= slot < Capacity() ==> slot in idByIndex
      ensures r.Throw? ==> Active(mirror, id).Some? && id !in indexById
      ensures old(Settled(universe)) && r.Ok? ==> Settled(universe)
      ensures forall other :: other in old(indexById) && (other != id || Active(mirror, id).Some?) ==>
                other in indexById && indexById[other] == old(indexById)[other]
      ensures pathCache == old(pathCache) - (if Active(mirror, id).None? then {id} else {})
    {
      if Active(mirror, id).None? {
        ClearInactive(id, current, mirror);
      } else {
        var idx := WriteActive(id, mirror[id], current);
        if idx.Throw? {
          return Throw(idx.error);
        }
        if old(Settled(universe)) && id !in old(indexById) {
          StayPreferred(idValue, Capacity(), old(indexById), old(idByIndex), id, universe, idx.value);
        }
      }
      r := Ok(());
    }

    /**
     Incremental update: if the affected identities cover every change of the
     mirror since the tree was last in sync with it, the tree is in sync again.
     */
    method IncrementalUpdateTreeCacheFromMirror(
        mirror: Mirror, affected: seq<IdHash>, preheat: seq<IdHash>, bootstrapped: bool, order: seq<IdHash>, ghost before: Mirror)
      returns (r: Outcome<()>)
      requires Valid()
      requires IdsOf(order) == ActiveIds(mirror) && forall i :: 0 <= i < |order| ==> order[i] !in order[..i]
      requires bootstrapped ==> InSync(before) && forall id :: id !in affected ==> Active(before, id) == Active(mirror, id)
      modifies this
      ensures Valid()
      ensures r.Ok? ==> InSync(mirror)
      ensures bootstrapped ==> forall id :: id in old(indexById) && Active(mirror, id).Some? ==>
                id in indexById && indexById[id] == old(indexById)[id]
      ensures r.Ok? && !bootstrapped ==> AllFresh() && ProbedInOrder(idValue, Capacity(), order, indexById)
      ensures r.Ok? && bootstrapped ==> forall k :: 0 <= k < |preheat| && preheat[k] in indexById ==> preheat[k] in pathCache
      ensures r.Ok? && bootstrapped ==> forall id :: id in pathCache ==>
                if id in preheat then Fresh(id, pathCache[id])
                else id in old(pathCache) && pathCache[id] == old(pathCache)[id]
      ensures r.Ok? && bootstrapped ==> forall id :: id in old(pathCache) && id !in affected && id !in preheat ==> id in pathCache
      ensures r.Throw? && bootstrapped ==> forall slot :: 0 <= slot < Capacity() ==> slot in idByIndex
      ensures r.Throw? && bootstrapped ==> exists id :: id in affected && Active(mirror, id).Some? && id !in indexById
      ensures bootstrapped && old(AllPreferred()) && PreferredDistinct(old(indexById.Keys) + ActiveIds(mirror)) && r.Ok?
              ==> AllPreferred()
    {
      if !bootstrapped {
        r := FullRebuildSparseTreeFromMirror(mirror, order, preheat);
        return;
      }
      r := CatchUpAll(mirror, affected, before);
      if r.Ok? {
        Preheat(preheat, mirror);
      }
    }

    /**
     The rebuild pass around an incremental update: afterwards every cached path
     carries the current root, the preheated ones are fresh, and the others are the
     earlier ones under the new label.
     */
    method UpdateAndRelabel(
        mirror: Mirror, affected: seq<IdHash>, preheat: seq<IdHash>, order: seq<IdHash>, ghost before: Mirror)
      returns (r: Outcome<()>)
      requires Valid() && InSync(before)
      requires IdsOf(order) == ActiveIds(mirror) && forall i :: 0 <= i < |order| ==> order[i] !in order[..i]
      requires forall id :: id !in affected ==> Active(before, id) == Active(mirror, id)
      modifies this
      ensures Valid()
      ensures r.Ok? ==> InSync(mirror)
      ensures r.Throw? ==> exists id :: id in affected && Active(mirror, id).Some? && id !in indexById
      ensures forall id :: id in old(indexById) && Active(mirror, id).Some? ==>
                id in indexById && indexById[id] == old(indexById)[id]
      ensures r.Ok? ==> forall id :: id in pathCache ==>
                if id in preheat then Fresh(id, pathCache[id])
                else id in old(pathCache) && pathCache[id] == old(pathCache)[id].(root := rootField)
      ensures r.Ok? ==> forall id :: id in old(pathCache) && id !in affected && id !in preheat ==> id in pathCache
    {
      r := IncrementalUpdateTreeCacheFromMirror(mirror, affected, preheat, true, order, before);
      if r.Ok? {
        RelabelPathCache(None);
      }
    }

    method CatchUpAll(mirror: Mirror, affected: seq<IdHash>, ghost before: Mirror) returns (r: Outcome<()>)
      requires Valid() && InSync(before)
      requires forall id :: id !in affected ==> Active(before, id) == Active(mirror, id)
      modifies this
      ensures Valid()
      ensures r.Ok? ==> InSync(mirror)
      ensures r.Throw? ==> forall slot :: 0 <= slot < Capacity() ==> slot in idByIndex
      ensures old(AllPreferred()) && PreferredDistinct(old(indexById.Keys) + ActiveIds(mirror)) && r.Ok? ==> AllPreferred()
      ensures r.Throw? ==> exists id :: id in affected && Active(mirror, id).Some? && id !in indexById
      ensures forall id :: id in old(indexById) && Active(mirror, id).Some? ==>
                id in indexById && indexById[id] == old(indexById)[id]
      ensures forall id :: id in pathCache ==> id in old(pathCache) && pathCache[id] == old(pathCache)[id]
      ensures forall id :: id in old(pathCache) && id !in affected ==> id in pathCache
    {
      ghost var current := before;
      ghost var universe := indexById.Keys + ActiveIds(mirror);
      for i := 0 to |affected|
        invariant Valid() && InSync(current) && Catching(before, mirror, affected[..i], current)
        invariant old(Settled(universe)) ==> Settled(universe)
        invariant forall id :: id in old(indexById) && Active(mirror, id).Some? ==>
                    id in indexById && indexById[id] == old(indexById)[id]
        invariant forall id :: id in pathCache ==> id in old(pathCache) && pathCache[id] == old(pathCache)[id]
        invariant forall id :: id in old(pathCache) && id !in affected ==> id in pathCache
      {
        var step := CatchUp(affected[i], mirror, current, universe);
        if step.Throw? {
          return step;
        }
        CatchingStep(before, mirror, affected, i, current);
        current := Merged(current, mirror, affected[i]);
      }
      assert affected[..|affected|] == affected;
      SyncedSame(hash5, Zero(), indexById, idByIndex, leafFieldById, nodeCache[0], current, mirror);
      r := Ok(());
    }
  }

  /** Without releases the occupied slots do not depend on the order of insertion. */
  lemma OccupiedSlotsUnique(idValue: IdHash -> nat, cap: nat, order: seq<IdHash>, order': seq<IdHash>,
                            taken: set<nat>, taken': set<nat>)
    requires cap > 0 && multiset(order) == multiset(order')
    requires Slots.InsertedAll(cap, {}, PrefsOf(idValue, cap, order), taken)
    requires Slots.InsertedAll(cap, {}, PrefsOf(idValue, cap, order'), taken')
    ensures taken == taken'
  {
    PrefsMultiset(idValue, cap, order, order');
    Slots.OrderIndependence(cap, {}, PrefsOf(idValue, cap, order), PrefsOf(idValue, cap, order'), taken, taken');
  }

  lemma {:induction false} PrefsMultiset(idValue: IdHash -> nat, cap: nat, order: seq<IdHash>, order': seq<IdHash>)
    requires cap > 0 && multiset(order) == multiset(order')
    ensures multiset(PrefsOf(idValue, cap, order)) == multiset(PrefsOf(idValue, cap, order'))
  {
    if order == [] {
      assert |multiset(order')| == 0;
    } else {
      var id, rest := order[0], order[1..];
      assert order == [id] + rest && id in multiset(order');
      var i :| 0 <= i < |order'| && order'[i] == id;
      var a, b := order'[..i], order'[i + 1..];
      assert order' == a + [id] + b;
      TakeOut(id, rest, a, b);
      PrefsMultiset(idValue, cap, rest, a + b);
      PrefsConcat(idValue, cap, [id], rest);
      PrefsConcat(idValue, cap, a, b);
      PrefsConcat(idValue, cap, a, [id]);
      PrefsConcat(idValue, cap, a + [id], b);
      PutIn(PrefsOf(idValue, cap, [id]), PrefsOf(idValue, cap, rest), PrefsOf(idValue, cap, a), PrefsOf(idValue, cap, b));
    }
  }

  lemma TakeOut(id: IdHash, rest: seq<IdHash>, a: seq<IdHash>, b: seq<IdHash>)
    requires multiset([id] + rest) == multiset(a + [id] + b)
    ensures multiset(rest) == multiset(a + b)
  {
    assert multiset(rest) == multiset([id] + rest) - multiset([id]);
    assert multiset(a + b) == multiset(a + [id] + b) - multiset([id]);
  }

  lemma PutIn(p: seq<nat>, rest: seq<nat>, a: seq<nat>, b: seq<nat>)
    requires multiset(rest) == multiset(a + b)
    ensures multiset(p + rest) == multiset(a + p + b)
  {
    assert multiset(a + b) == multiset(a) + multiset(b);
  }

  lemma PrefsConcat(idValue: IdHash -> nat, cap: nat, a: seq<IdHash>, b: seq<IdHash>)
    requires cap > 0
    ensures PrefsOf(idValue, cap, a + b) == PrefsOf(idValue, cap, a) + PrefsOf(idValue, cap, b)
  {
  }

  /** `current` has the new status of the identities already treated and the old status of the others. */
  ghost predicate Catching(before: Mirror, mirror: Mirror, done: seq<IdHash>, current: Mirror)
  {
    forall id :: Active(current, id) == if id in done then Active(mirror, id) else Active(before, id)
  }

  lemma CatchingStep(before: Mirror, mirror: Mirror, affected: seq<IdHash>, i: nat, current: Mirror)
    requires i < |affected| && Catching(before, mirror, affected[..i], current)
    ensures Catching(before, mirror, affected[..i + 1], Merged(current, mirror, affected[i]))
  {
    assert affected[..i + 1] == affected[..i] + [affected[i]];
  }

  // ----- comparing two trees in sync with the same mirror -----

  /** Being in sync depends only on which identities are active and with which records. */
  lemma SyncedSame(hash5: Hash5, zero: nat, ix: map<IdHash, nat>, at: map<nat, IdHash>, fields: map<IdHash, nat>,
                   leaves: map<nat, nat>, m: Mirror, m': Mirror)
    requires Synced(hash5, zero, ix, at, fields, leaves, m)
    requires forall id :: Active(m, id) == Active(m', id)
    ensures Synced(hash5, zero, ix, at, fields, leaves, m')
  {
    forall id | id in ix ensures m[id] == m'[id] {
      assert Active(m, id) == Active(m', id) && Active(m, id).Some?;
    }
  }

  /** With the same slots the same mirror gives the same leaves. */
  lemma SameSlotsSameLeaves(hash5: Hash5, zero: nat, cap: nat, mirror: Mirror,
                            ix: map<IdHash, nat>, at: map<nat, IdHash>, fields: map<IdHash, nat>, leaves: map<nat, nat>,
                            at': map<nat, IdHash>, fields': map<IdHash, nat>, leaves': map<nat, nat>)
    requires InverseMaps(cap, ix, at) && InverseMaps(cap, ix, at')
    requires Synced(hash5, zero, ix, at, fields, leaves, mirror) && Synced(hash5, zero, ix, at', fields', leaves', mirror)
    ensures forall j: nat :: LeafAt(leaves, zero, j) == LeafAt(leaves', zero, j)
  {
    forall j: nat ensures LeafAt(leaves, zero, j) == LeafAt(leaves', zero, j) {
      if j in at {
        assert ix[at[j]] == j && j in at';
      } else if j in at' {
        assert ix[at'[j]] == j;
      }
    }
  }

  /**
   When every active identity sits at its preferred slot, the root is a function
   of the mirror: an incremental update and a full rebuild then agree.
   */
  lemma PreferredSlotsSameRoot(hash2: Hash2, hash5: Hash5, idValue: IdHash -> nat, zero: nat, depth: nat, mirror: Mirror,
                               ix: map<IdHash, nat>, at: map<nat, IdHash>, fields: map<IdHash, nat>, leaves: map<nat, nat>,
                               ix': map<IdHash, nat>, at': map<nat, IdHash>, fields': map<IdHash, nat>, leaves': map<nat, nat>)
    requires InverseMaps(Pow2(depth), ix, at) && InverseMaps(Pow2(depth), ix', at')
    requires Synced(hash5, zero, ix, at, fields, leaves, mirror) && Synced(hash5, zero, ix', at', fields', leaves', mirror)
    requires AtPreferred(idValue, Pow2(depth), ix) && AtPreferred(idValue, Pow2(depth), ix')
    ensures Node(hash2, zero, leaves, depth, 0) == Node(hash2, zero, leaves', depth, 0)
  {
    assert ix == ix' by {
      forall id ensures id in ix <==> id in ix' {
        assert id in ix <==> Active(mirror, id).Some?;
      }
    }
    SameSlotsSameLeaves(hash5, zero, Pow2(depth), mirror, ix, at, fields, leaves, at', fields', leaves');
    NodeSame(hash2, zero, leaves, leaves', depth, 0);
  }

  /** The leaves of the active identities differ from each other and from the empty leaf. */
  ghost predicate DistinctLeaves(hash5: Hash5, zero: nat, mirror: Mirror)
  {
    && (forall id :: id in ActiveIds(mirror) ==> LeafValue(hash5, mirror[id]) != zero)
    && (forall a, b :: a in ActiveIds(mirror) && b in ActiveIds(mirror) && a != b
                       ==> LeafValue(hash5, mirror[a]) != LeafValue(hash5, mirror[b]))
  }

  /**
   Two trees in sync with the same mirror have the same root exactly when every
   identity has the same slot in both, provided leaves are told apart and the two
   trees meet no collision of the hash.
   */
  lemma SameRootIffSameSlots(hash2: Hash2, hash5: Hash5, zero: nat, depth: nat, mirror: Mirror,
                             ix: map<IdHash, nat>, at: map<nat, IdHash>, fields: map<IdHash, nat>, leaves: map<nat, nat>,
                             ix': map<IdHash, nat>, at': map<nat, IdHash>, fields': map<IdHash, nat>, leaves': map<nat, nat>)
    requires InverseMaps(Pow2(depth), ix, at) && InverseMaps(Pow2(depth), ix', at')
    requires Synced(hash5, zero, ix, at, fields, leaves, mirror) && Synced(hash5, zero, ix', at', fields', leaves', mirror)
    requires !TreesCollide(hash2, zero, leaves, leaves', depth) && DistinctLeaves(hash5, zero, mirror)
    ensures Node(hash2, zero, leaves, depth, 0) == Node(hash2, zero, leaves', depth, 0) <==> ix == ix'
  {
    SameRootIffSameLeaves(hash2, zero, leaves, leaves', depth);
    if ix == ix' {
      SameSlotsSameLeaves(hash5, zero, Pow2(depth), mirror, ix, at, fields, leaves, at', fields', leaves');
    }
    if SameLeaves(leaves, leaves', zero, Pow2(depth)) {
      SameLeavesSameSlots(hash5, zero, Pow2(depth), mirror, ix, at, fields, leaves, ix', at', fields', leaves');
    }
  }

  lemma SameLeavesSameSlots(hash5: Hash5, zero: nat, cap: nat, mirror: Mirror,
                            ix: map<IdHash, nat>, at: map<nat, IdHash>, fields: map<IdHash, nat>, leaves: map<nat, nat>,
                            ix': map<IdHash, nat>, at': map<nat, IdHash>, fields': map<IdHash, nat>, leaves': map<nat, nat>)
    requires InverseMaps(cap, ix, at) && InverseMaps(cap, ix', at')
    requires Synced(hash5, zero, ix, at, fields, leaves, mirror) && Synced(hash5, zero, ix', at', fields', leaves', mirror)
    requires SameLeaves(leaves, leaves', zero, cap) && DistinctLeaves(hash5, zero, mirror)
    ensures ix == ix'
  {
    hide LeafValue, Synced, InverseMaps, DistinctLeaves;
    SyncedIds(hash5, zero, ix, at, fields, leaves, mirror);
    SyncedIds(hash5, zero, ix', at', fields', leaves', mirror);
    forall id | id in ix ensures ix[id] == ix'[id] {
      OwnSlot(hash5, zero, cap, mirror, ix', at', fields', leaves', id);
      OwnerOf(hash5, zero, cap, mirror, ix, at, fields, leaves, id, ix'[id]);
    }
  }

  lemma SyncedIds(hash5: Hash5, zero: nat, ix: map<IdHash, nat>, at: map<nat, IdHash>, fields: map<IdHash, nat>,
                  leaves: map<nat, nat>, mirror: Mirror)
    requires Synced(hash5, zero, ix, at, fields, leaves, mirror)
    ensures ix.Keys == ActiveIds(mirror)
  {
    forall id ensures id in ix.Keys <==> id in ActiveIds(mirror) {
      assert id in ix <==> Active(mirror, id).Some?;
    }
  }

  lemma OwnSlot(hash5: Hash5, zero: nat, cap: nat, mirror: Mirror, ix: map<IdHash, nat>, at: map<nat, IdHash>,
                fields: map<IdHash, nat>, leaves: map<nat, nat>, id: IdHash)
    requires InverseMaps(cap, ix, at) && Synced(hash5, zero, ix, at, fields, leaves, mirror) && id in ix
    ensures id in mirror && ix[id] < cap && LeafAt(leaves, zero, ix[id]) == LeafValue(hash5, mirror[id])
  {
    hide LeafValue;
    assert Active(mirror, id).Some?;
  }

  /** A slot that holds the leaf of an identity is that identity's slot. */
  lemma OwnerOf(hash5: Hash5, zero: nat, cap: nat, mirror: Mirror, ix: map<IdHash, nat>, at: map<nat, IdHash>,
                fields: map<IdHash, nat>, leaves: map<nat, nat>, id: IdHash, slot: nat)
    requires InverseMaps(cap, ix, at) && Synced(hash5, zero, ix, at, fields, leaves, mirror)
    requires DistinctLeaves(hash5, zero, mirror) && id in ActiveIds(mirror)
    requires LeafAt(leaves, zero, slot) == LeafValue(hash5, mirror[id])
    ensures id in ix && ix[id] == slot
  {
    hide LeafValue;
    assert Active(mirror, id).Some? && slot in at;
    var owner := at[slot];
    assert ix[owner] == slot && Active(mirror, owner).Some?;
  }

  /**
   When an update leaves the root that a full rebuild would give: exactly if the
   current slots are those that probing in the rebuild's order assigns, which can
   be checked on the current slots before rebuilding.
   */
  lemma RebuildKeepsRootIff(hash2: Hash2, hash5: Hash5, idValue: IdHash -> nat, zero: nat, depth: nat, mirror: Mirror, order: seq<IdHash>,
                            ix: map<IdHash, nat>, at: map<nat, IdHash>, fields: map<IdHash, nat>, leaves: map<nat, nat>,
                            ix': map<IdHash, nat>, at': map<nat, IdHash>, fields': map<IdHash, nat>, leaves': map<nat, nat>)
    requires InverseMaps(Pow2(depth), ix, at) && InverseMaps(Pow2(depth), ix', at')
    requires Synced(hash5, zero, ix, at, fields, leaves, mirror) && Synced(hash5, zero, ix', at', fields', leaves', mirror)
    requires ProbedInOrder(idValue, Pow2(depth), order, ix')
    requires !TreesCollide(hash2, zero, leaves, leaves', depth) && DistinctLeaves(hash5, zero, mirror)
    ensures Node(hash2, zero, leaves, depth, 0) == Node(hash2, zero, leaves', depth, 0)
            <==> ProbedInOrder(idValue, Pow2(depth), order, ix)
  {
    SameRootIffSameSlots(hash2, hash5, zero, depth, mirror, ix, at, fields, leaves, ix', at', fields', leaves');
    if ProbedInOrder(idValue, Pow2(depth), order, ix) {
      ProbedSame(idValue, Pow2(depth), order, ix, ix');
    }
  }
}
