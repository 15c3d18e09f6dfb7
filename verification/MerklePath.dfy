/**
 Checking a Merkle path: the native fold and the circuit's selector form.
 Values are field elements; the two-input hash is a parameter.
 */
module MerklePath {
  import opened Outcomes
  import opened NumberTheory
  import opened DenseTree

  datatype Path = Path(elements: seq<nat>, bits: seq<nat>)

  // ----- the native check -----

  function FoldLevel(hash: Hash2, current: nat, sibling: nat, bit: nat): Outcome<nat>
  {
    if bit == 0 then Ok(hash(current, sibling))
    else if bit == 1 then Ok(hash(sibling, current))
    else Throw("bad_path_index")
  }

  function ValidatePath(path: Path): Outcome<()>
  {
    if |path.elements| != |path.bits| then Throw("path_length_mismatch")
    else if exists i :: 0 <= i < |path.bits| && path.bits[i] != 0 && path.bits[i] != 1 then Throw("bad_path_index")
    else Ok(())
  }

  /** The root reached from `leaf` through the first `n` levels of a boolean path. */
  function Fold(hash: Hash2, leaf: nat, path: Path, n: nat): nat
    requires n <= |path.elements| == |path.bits|
  {
    if n == 0 then leaf
    else if path.bits[n - 1] == 0 then hash(Fold(hash, leaf, path, n - 1), path.elements[n - 1])
    else hash(path.elements[n - 1], Fold(hash, leaf, path, n - 1))
  }

  function RootFromPath(hash: Hash2, leaf: nat, path: Path): Outcome<nat>
  {
    var _ :- ValidatePath(path);
    Ok(Fold(hash, leaf, path, |path.elements|))
  }

  method ComputeRootFromPath(hash: Hash2, leaf: nat, path: Path) returns (r: Outcome<nat>)
    ensures r == RootFromPath(hash, leaf, path)
  {
    if |path.elements| != |path.bits| {
      return Throw("path_length_mismatch");
    }
    for i := 0 to |path.bits|
      invariant forall k :: 0 <= k < i ==> path.bits[k] == 0 || path.bits[k] == 1
    {
      if path.bits[i] != 0 && path.bits[i] != 1 {
        return Throw("bad_path_index");
      }
    }
    var cur := leaf;
    for i := 0 to |path.elements|
      invariant cur == Fold(hash, leaf, path, i)
    {
      var next := FoldLevel(hash, cur, path.elements[i], path.bits[i]);
      cur := next.value;
    }
    r := Ok(cur);
  }

  function VerifyPath(hash: Hash2, leaf: nat, path: Path, root: nat): Outcome<bool>
  {
    var computed :- RootFromPath(hash, leaf, path);
    Ok(computed == root)
  }

  // ----- the circuit -----

  /** `in * (in - 1) === 0` over the field. */
  predicate ForceBool(q: nat, x: nat)
    requires q > 0
  {
    (x * (x - 1)) % q == 0
  }

  /** The signals of the circuit for one proof. */
  datatype Signals = Signals(hashes: seq<nat>, swapDelta: seq<nat>)

  /** The constraints of one level: boolean bit, selector difference, level hash. */
  predicate LevelConstraint(hash: Hash2, q: nat, element: nat, bit: nat, current: nat, delta: nat, next: nat)
    requires q > 0
  {
    && ForceBool(q, bit)
    && delta == (bit * (element - current)) % q
    && next == hash((current + delta) % q, (element - delta) % q)
  }

  predicate Constraints(hash: Hash2, q: nat, leaf: nat, root: nat, path: Path, s: Signals)
    requires q > 0
  {
    var depth := |path.elements|;
    && |path.bits| == depth && |s.hashes| == depth + 1 && |s.swapDelta| == depth
    && s.hashes[0] == leaf
    && (forall i :: 0 <= i < depth ==>
          LevelConstraint(hash, q, path.elements[i], path.bits[i], s.hashes[i], s.swapDelta[i], s.hashes[i + 1]))
    && s.hashes[depth] == root
  }

  ghost predicate Accepts(hash: Hash2, q: nat, leaf: nat, root: nat, path: Path)
    requires q > 0
  {
    exists s :: Constraints(hash, q, leaf, root, path, s)
  }

  /** Inputs and hash values are field elements. */
  ghost predicate FieldInputs(hash: Hash2, q: nat, leaf: nat, path: Path)
  {
    && leaf < q
    && (forall i :: 0 <= i < |path.elements| ==> path.elements[i] < q)
    && (forall i :: 0 <= i < |path.bits| ==> path.bits[i] < q)
    && (forall a, b :: hash(a, b) < q)
  }

  /** Over a prime field the boolean constraint admits exactly 0 and 1. */
  lemma ForceBoolMeaning(q: nat, x: nat)
    requires IsPrime(q) && x < q
    ensures ForceBool(q, x) <==> x == 0 || x == 1
  {
    if x == 0 || x == 1 {
      ModUnique(0, 0, 0, q);
    } else if (x * (x - 1)) % q == 0 {
      EuclidsLemma(q, x, x - 1);
      ModUnique(x, 0, x, q);
      ModUnique(x - 1, 0, x - 1, q);
    }
  }

  lemma SmallMod(x: nat, q: nat)
    requires x < q
    ensures x % q == x
  {
    ModUnique(x, 0, x, q);
  }

  /** The two selector outputs are the two hash inputs in the order the bit asks for. */
  lemma SelectorMeaning(q: nat, element: nat, bit: nat, current: nat)
    requires q >= 2 && element < q && current < q && (bit == 0 || bit == 1)
    ensures var delta := (bit * (element - current)) % q;
            && (current + delta) % q == (if bit == 0 then current else element)
            && (element - delta) % q == (if bit == 0 then element else current)
  {
    var delta := (bit * (element - current)) % q;
    if bit == 0 {
      SmallMod(0, q);
      SmallMod(current, q);
      SmallMod(element, q);
    } else if element >= current {
      SmallMod(element - current, q);
      SmallMod(current, q);
      SmallMod(element, q);
    } else {
      ModUnique(element - current, -1, element - current + q, q);
      ModUnique(current + delta, 1, element, q);
      ModUnique(element - delta, -1, current, q);
    }
  }

  lemma LevelMeaning(hash: Hash2, q: nat, element: nat, bit: nat, current: nat, delta: nat, next: nat)
    requires IsPrime(q) && element < q && current < q && bit < q
    ensures LevelConstraint(hash, q, element, bit, current, delta, next) <==>
            && (bit == 0 || bit == 1)
            && delta == (bit * (element - current)) % q
            && FoldLevel(hash, current, element, bit) == Ok(next)
  {
    ForceBoolMeaning(q, bit);
    if bit == 0 || bit == 1 {
      SelectorMeaning(q, element, bit, current);
    }
  }

  /** In every satisfying assignment signal `hashes[n]` is the fold of the first `n` levels. */
  lemma {:induction false} SignalsAreFold(hash: Hash2, q: nat, leaf: nat, root: nat, path: Path, s: Signals, n: nat)
    requires IsPrime(q) && FieldInputs(hash, q, leaf, path) && Constraints(hash, q, leaf, root, path, s)
    requires n <= |path.elements|
    ensures s.hashes[n] < q && s.hashes[n] == Fold(hash, leaf, path, n)
    ensures forall i :: 0 <= i < n ==> path.bits[i] == 0 || path.bits[i] == 1
  {
    if n > 0 {
      SignalsAreFold(hash, q, leaf, root, path, s, n - 1);
      LevelMeaning(hash, q, path.elements[n - 1], path.bits[n - 1], s.hashes[n - 1], s.swapDelta[n - 1], s.hashes[n]);
    }
  }

  lemma {:induction false} FoldInField(hash: Hash2, q: nat, leaf: nat, path: Path, n: nat)
    requires FieldInputs(hash, q, leaf, path) && n <= |path.elements| == |path.bits|
    ensures Fold(hash, leaf, path, n) < q
  {
  }

  /**
   The circuit and the native check accept exactly the same proofs: the
   constraints have a solution if and only if the native fold returns the root.
   */
  lemma CircuitEquivalence(hash: Hash2, q: nat, leaf: nat, root: nat, path: Path)
    requires IsPrime(q) && FieldInputs(hash, q, leaf, path)
    ensures Accepts(hash, q, leaf, root, path) <==> RootFromPath(hash, leaf, path) == Ok(root)
  {
    if Accepts(hash, q, leaf, root, path) {
      var s :| Constraints(hash, q, leaf, root, path, s);
      SignalsAreFold(hash, q, leaf, root, path, s, |path.elements|);
    }
    FoldAccepted(hash, q, leaf, root, path);
  }

  /** The fold gives the signals. */
  lemma FoldAccepted(hash: Hash2, q: nat, leaf: nat, root: nat, path: Path)
    requires IsPrime(q) && FieldInputs(hash, q, leaf, path)
    ensures RootFromPath(hash, leaf, path) == Ok(root) ==> Accepts(hash, q, leaf, root, path)
  {
    var depth := |path.elements|;
    if RootFromPath(hash, leaf, path) == Ok(root) {
      var hashes := seq(depth + 1, i requires 0 <= i <= depth => Fold(hash, leaf, path, i));
      var deltas := seq(depth, i requires 0 <= i < depth => (path.bits[i] * (path.elements[i] - hashes[i])) % q);
      forall i | 0 <= i < depth
        ensures LevelConstraint(hash, q, path.elements[i], path.bits[i], hashes[i], deltas[i], hashes[i + 1])
      {
        FoldInField(hash, q, leaf, path, i);
        assert path.bits[i] == 0 || path.bits[i] == 1;
        LevelMeaning(hash, q, path.elements[i], path.bits[i], hashes[i], deltas[i], hashes[i + 1]);
      }
      assert Constraints(hash, q, leaf, root, path, Signals(hashes, deltas));
    }
  }

  // ----- binding -----

  /** The two inputs hashed at one level of a fold. */
  function LevelInputs(hash: Hash2, leaf: nat, path: Path, n: nat): (nat, nat)
    requires n < |path.elements| == |path.bits|
  {
    var current := Fold(hash, leaf, path, n);
    if path.bits[n] == 0 then (current, path.elements[n]) else (path.elements[n], current)
  }

  /** Level `n` of the two folds hashes different inputs to the same value. */
  predicate FoldsCollide(hash: Hash2, leaf: nat, path: Path, leaf': nat, path': Path, n: nat)
    requires n < |path.elements| == |path.bits| && n < |path'.elements| == |path'.bits|
  {
    var x, y := LevelInputs(hash, leaf, path, n), LevelInputs(hash, leaf', path', n);
    x != y && hash(x.0, x.1) == hash(y.0, y.1)
  }

  /** The two folds meet a collision somewhere. */
  predicate FoldsMeet(hash: Hash2, leaf: nat, path: Path, leaf': nat, path': Path)
    requires |path.elements| == |path.bits| == |path'.elements| == |path'.bits|
  {
    exists n :: 0 <= n < |path.elements| && FoldsCollide(hash, leaf, path, leaf', path', n)
  }

  /** A root and an index leave room for one leaf and one list of siblings, or else the two folds meet a collision. */
  lemma {:induction false} PathBinding(hash: Hash2, leaf: nat, leaf': nat, path: Path, path': Path, n: nat)
    requires |path.elements| == |path.bits| == |path'.elements| && path'.bits == path.bits
    requires n <= |path.elements|
    requires Fold(hash, leaf, path, n) == Fold(hash, leaf', path', n)
    ensures (leaf == leaf' && path.elements[..n] == path'.elements[..n]) || FoldsMeet(hash, leaf, path, leaf', path')
  {
    if n > 0 {
      if LevelInputs(hash, leaf, path, n - 1) == LevelInputs(hash, leaf', path', n - 1) {
        PathBinding(hash, leaf, leaf', path, path', n - 1);
        assert path.elements[..n] == path.elements[..n - 1] + [path.elements[n - 1]];
        assert path'.elements[..n] == path'.elements[..n - 1] + [path'.elements[n - 1]];
      } else {
        assert FoldsCollide(hash, leaf, path, leaf', path', n - 1);
      }
    }
  }

  // ----- paths of the dense tree -----

  /** The authentication path of leaf `index` in the dense tree. */
  function TreePath(hash: Hash2, zero: nat, leaves: map<nat, nat>, depth: nat, index: nat): (p: Path)
    ensures |p.elements| == |p.bits| == depth
  {
    Path(seq(depth, l requires 0 <= l < depth => Node(hash, zero, leaves, l, Sibling(Ancestor(index, l)))),
         seq(depth, l requires 0 <= l < depth => Ancestor(index, l) % 2))
  }

  lemma TreePathAt(hash: Hash2, zero: nat, leaves: map<nat, nat>, depth: nat, index: nat, l: nat)
    requires l < depth
    ensures var p := TreePath(hash, zero, leaves, depth, index);
            && p.elements[l] == Node(hash, zero, leaves, l, Sibling(Ancestor(index, l)))
            && p.bits[l] == Ancestor(index, l) % 2
  {
  }

  /** Level `l` of the path holds the sibling of the ancestor, and on which side the ancestor is. */
  ghost predicate PathLevel(hash: Hash2, zero: nat, leaves: map<nat, nat>, index: nat, path: Path, l: nat)
    requires l < |path.elements| == |path.bits|
  {
    && path.elements[l] == Node(hash, zero, leaves, l, Sibling(Ancestor(index, l)))
    && path.bits[l] == Ancestor(index, l) % 2
  }

  /** Folding a tree path climbs the tree. */
  lemma {:induction false} TreePathFolds(hash: Hash2, zero: nat, leaves: map<nat, nat>, index: nat, path: Path, n: nat)
    requires n <= |path.elements| == |path.bits|
    requires forall l :: 0 <= l < n ==> PathLevel(hash, zero, leaves, index, path, l)
    ensures Fold(hash, LeafAt(leaves, zero, index), path, n) == Node(hash, zero, leaves, n, Ancestor(index, n))
  {
    if n > 0 {
      TreePathFolds(hash, zero, leaves, index, path, n - 1);
      assert PathLevel(hash, zero, leaves, index, path, n - 1);
      ParentOf(hash, zero, leaves, n - 1, Ancestor(index, n - 1));
    }
  }

  /** A tree path leads from its leaf to the root; another leaf that it takes there meets a collision. */
  lemma TreePathCorrect(hash: Hash2, zero: nat, leaves: map<nat, nat>, depth: nat, index: nat)
    requires index < Pow2(depth)
    ensures var path, root := TreePath(hash, zero, leaves, depth, index), Node(hash, zero, leaves, depth, 0);
            && RootFromPath(hash, LeafAt(leaves, zero, index), path) == Ok(root)
            && forall leaf :: RootFromPath(hash, leaf, path) == Ok(root) && leaf != LeafAt(leaves, zero, index)
                              ==> FoldsMeet(hash, leaf, path, LeafAt(leaves, zero, index), path)
  {
    var path, root := TreePath(hash, zero, leaves, depth, index), Node(hash, zero, leaves, depth, 0);
    TreePathFolds(hash, zero, leaves, index, path, depth);
    AncestorTop(index, depth);
    forall leaf | RootFromPath(hash, leaf, path) == Ok(root) && leaf != LeafAt(leaves, zero, index)
      ensures FoldsMeet(hash, leaf, path, LeafAt(leaves, zero, index), path)
    {
      PathBinding(hash, leaf, LeafAt(leaves, zero, index), path, path, depth);
    }
  }
}
