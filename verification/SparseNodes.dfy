/** The sparse node store: one map per level, holding only nodes that differ from the empty subtree. */
module SparseNodes {
  import opened NumberTheory
  import opened DenseTree

  type Nodes = seq<map<nat, nat>>

  function Get(hash: Hash2, zero: nat, nodes: Nodes, level: nat, index: nat): nat
    requires level < |nodes|
  {
    if index in nodes[level] then nodes[level][index] else ZeroAt(hash, zero, level)
  }

  function Put(m: map<nat, nat>, index: nat, value: nat, empty: nat): map<nat, nat>
  {
    if value == empty then m - {index} else m[index := value]
  }

  /** No stored value equals the empty subtree of its level. */
  ghost predicate NoZeroStored(hash: Hash2, zero: nat, nodes: Nodes)
  {
    forall l, i :: 0 <= l < |nodes| && i in nodes[l] ==> nodes[l][i] != ZeroAt(hash, zero, l)
  }

  ghost predicate NodeOk(hash: Hash2, zero: nat, nodes: Nodes, level: nat, index: nat)
    requires level < |nodes|
  {
    Get(hash, zero, nodes, level, index) == Node(hash, zero, nodes[0], level, index)
  }

  /** Levels up to `top` agree with the dense tree over the stored leaves. */
  ghost predicate Agrees(hash: Hash2, zero: nat, nodes: Nodes, top: nat)
    requires top < |nodes|
  {
    forall l: nat, i: nat :: l <= top ==> NodeOk(hash, zero, nodes, l, i)
  }

  /** The store represents the dense tree of the given depth over its leaves. */
  ghost predicate Sparse(hash: Hash2, zero: nat, depth: nat, nodes: Nodes)
  {
    && |nodes| == depth + 1 && NoZeroStored(hash, zero, nodes) && Agrees(hash, zero, nodes, depth)
    && forall i :: i in nodes[0] ==> i < Pow2(depth)
  }

  lemma PutGet(m: map<nat, nat>, index: nat, value: nat, empty: nat, i: nat)
    ensures var m' := Put(m, index, value, empty);
            (if i in m' then m'[i] else empty) == if i == index then value else if i in m then m[i] else empty
    ensures var m' := Put(m, index, value, empty);
            i in m' ==> (i == index && value != empty && m'[i] == value) || (i in m && m'[i] == m[i])
  {
  }

  /** The empty store represents the empty tree. */
  lemma EmptyIsSparse(hash: Hash2, zero: nat, depth: nat, nodes: Nodes)
    requires |nodes| == depth + 1 && forall l :: 0 <= l <= depth ==> nodes[l] == map[]
    ensures Sparse(hash, zero, depth, nodes)
  {
    forall l: nat, i: nat | l <= depth ensures NodeOk(hash, zero, nodes, l, i) {
      NodeEmpty(hash, zero, l, i);
    }
  }

  /** Mid-update: levels up to `top` are already those of the new leaves, the others still the old ones. */
  ghost predicate Climbing(hash: Hash2, zero: nat, depth: nat, before: Nodes, nodes: Nodes, k: nat, top: nat)
  {
    && Sparse(hash, zero, depth, before) && |nodes| == depth + 1 && top <= depth
    && NoZeroStored(hash, zero, nodes) && Agrees(hash, zero, nodes, top)
    && (forall l :: top < l <= depth ==> nodes[l] == before[l])
    && (forall j: nat :: j != k ==> LeafAt(nodes[0], zero, j) == LeafAt(before[0], zero, j))
    && (forall i :: i in nodes[0] ==> i < Pow2(depth))
  }

  lemma ClimbStart(hash: Hash2, zero: nat, depth: nat, nodes: Nodes, k: nat, value: nat)
    requires Sparse(hash, zero, depth, nodes) && k < Pow2(depth)
    ensures Climbing(hash, zero, depth, nodes, nodes[0 := Put(nodes[0], k, value, zero)], k, 0)
    ensures LeafAt(Put(nodes[0], k, value, zero), zero, k) == value
  {
    var nodes' := nodes[0 := Put(nodes[0], k, value, zero)];
    forall j: nat ensures LeafAt(nodes'[0], zero, j) == if j == k then value else LeafAt(nodes[0], zero, j) {
      PutGet(nodes[0], k, value, zero, j);
    }
    forall l, i | 0 <= l < |nodes'| && i in nodes'[l] ensures nodes'[l][i] != ZeroAt(hash, zero, l) {
      if l == 0 { PutGet(nodes[0], k, value, zero, i); }
    }
  }

  /** One turn of the leaf-to-root loop. */
  lemma ClimbTurn(hash: Hash2, zero: nat, depth: nat, before: Nodes, nodes: Nodes, k: nat, top: nat)
    requires Climbing(hash, zero, depth, before, nodes, k, top) && top < depth
    ensures var idx := Ancestor(k, top);
            var base := idx - idx % 2;
            var parent := hash(Get(hash, zero, nodes, top, base), Get(hash, zero, nodes, top, base + 1));
            Climbing(hash, zero, depth, before,
                     nodes[top + 1 := Put(nodes[top + 1], idx / 2, parent, ZeroAt(hash, zero, top + 1))], k, top + 1)
  {
    var idx := Ancestor(k, top);
    var base := idx - idx % 2;
    var up := idx / 2;
    var parent := hash(Get(hash, zero, nodes, top, base), Get(hash, zero, nodes, top, base + 1));
    assert NodeOk(hash, zero, nodes, top, base) && NodeOk(hash, zero, nodes, top, base + 1);
    var nodes' := nodes[top + 1 := Put(nodes[top + 1], up, parent, ZeroAt(hash, zero, top + 1))];
    assert nodes'[0] == nodes[0];
    assert base == 2 * up;
    var next := top + 1;
    forall i: nat ensures NodeOk(hash, zero, nodes', next, i) {
      PutGet(nodes[top + 1], up, parent, ZeroAt(hash, zero, top + 1), i);
      if i != up {
        assert NodeOk(hash, zero, before, top + 1, i);
        NodeFrame(hash, zero, nodes[0], before[0], k, top + 1, i);
      }
    }
    forall l: nat, i: nat | l <= top ensures NodeOk(hash, zero, nodes', l, i) {
      assert NodeOk(hash, zero, nodes, l, i);
    }
    forall l, i | 0 <= l < |nodes'| && i in nodes'[l] ensures nodes'[l][i] != ZeroAt(hash, zero, l) {
      if l == top + 1 { PutGet(nodes[top + 1], up, parent, ZeroAt(hash, zero, top + 1), i); }
    }
  }

  lemma ClimbDone(hash: Hash2, zero: nat, depth: nat, before: Nodes, nodes: Nodes, k: nat)
    requires Climbing(hash, zero, depth, before, nodes, k, depth)
    ensures Sparse(hash, zero, depth, nodes)
  {
  }

  // ----- storage -----

  /** Every stored node has a stored child. */
  lemma StoredHasChild(hash: Hash2, zero: nat, depth: nat, nodes: Nodes, level: nat, i: nat)
    requires Sparse(hash, zero, depth, nodes) && level < depth && i in nodes[level + 1]
    ensures 2 * i in nodes[level] || 2 * i + 1 in nodes[level]
  {
    assert NodeOk(hash, zero, nodes, level + 1, i);
    assert NodeOk(hash, zero, nodes, level, 2 * i) && NodeOk(hash, zero, nodes, level, 2 * i + 1);
  }

  lemma {:induction false} HalvingCount(a: set<nat>, b: set<nat>)
    requires forall i :: i in a ==> 2 * i in b || 2 * i + 1 in b
    ensures |a| <= |b|
  {
    if a != {} {
      var i :| i in a;
      var child := if 2 * i in b then 2 * i else 2 * i + 1;
      forall j | j in a - {i} ensures 2 * j in b - {child} || 2 * j + 1 in b - {child} {
      }
      HalvingCount(a - {i}, b - {child});
    }
  }

  /** No level stores more nodes than there are non-empty leaves. */
  lemma {:induction false} StorageBound(hash: Hash2, zero: nat, depth: nat, nodes: Nodes, level: nat)
    requires Sparse(hash, zero, depth, nodes) && level <= depth
    ensures |nodes[level].Keys| <= |nodes[0].Keys|
    ensures forall i :: i in nodes[0] <==> LeafAt(nodes[0], zero, i) != zero
  {
    if level > 0 {
      StorageBound(hash, zero, depth, nodes, level - 1);
      forall i | i in nodes[level].Keys
        ensures 2 * i in nodes[level - 1].Keys || 2 * i + 1 in nodes[level - 1].Keys
      {
        StoredHasChild(hash, zero, depth, nodes, level - 1, i);
      }
      HalvingCount(nodes[level].Keys, nodes[level - 1].Keys);
    }
    forall i ensures i in nodes[0] <==> LeafAt(nodes[0], zero, i) != zero {
    }
  }
}
