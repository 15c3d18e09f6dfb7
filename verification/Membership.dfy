/**
 What a root of the identity tree commits to, and the membership circuit over it:
 a proof opens the record of an active identity, or exhibits a collision.
 */
module Membership {
  import opened Outcomes
  import opened NumberTheory
  import opened DenseTree
  import opened MerklePath
  import opened MerkleTree

  type Hash3 = (nat, nat, nat) -> nat

  // ----- the root commits to the records -----

  type LeafArgs = (nat, nat, nat, nat, nat)

  /** The five values hashed for a slot: the fields of the active record there, or five zeros. */
  function SlotArgs(mirror: Mirror, at: map<nat, IdHash>, slot: nat): LeafArgs
    requires slot in at ==> at[slot] in mirror
  {
    if slot in at then
      var rec := mirror[at[slot]];
      (rec.cid, rec.pkNormHash, rec.pkRecHash, rec.version, 1)
    else (0, 0, 0, 0, 0)
  }

  /** The five-input hash takes one value on two different lists of arguments. */
  predicate Collide5(hash5: Hash5, a: LeafArgs, b: LeafArgs)
  {
    a != b && hash5(a.0, a.1, a.2, a.3, a.4) == hash5(b.0, b.1, b.2, b.3, b.4)
  }

  /** Every slot of a tree in sync holds the hash of its five values. */
  lemma SlotHashed(hash5: Hash5, cap: nat, mirror: Mirror, ix: map<IdHash, nat>, at: map<nat, IdHash>,
                   fields: map<IdHash, nat>, leaves: map<nat, nat>, slot: nat)
    requires InverseMaps(cap, ix, at) && Synced(hash5, hash5(0, 0, 0, 0, 0), ix, at, fields, leaves, mirror)
    ensures slot in at ==> at[slot] in mirror && mirror[at[slot]].active && slot < cap
    ensures var a := SlotArgs(mirror, at, slot);
            LeafAt(leaves, hash5(0, 0, 0, 0, 0), slot) == hash5(a.0, a.1, a.2, a.3, a.4)
  {
    if slot in at {
      var id := at[slot];
      assert id in ix && ix[id] == slot;
      assert Active(mirror, id).Some?;
    }
  }

  /**
   Two trees in sync with their mirrors and with equal roots have the same record
   fields at every slot, and the same empty slots, unless the trees meet a collision
   or the two lists of fields are one of the five-input hash.
   */
  lemma RootCommits(hash2: Hash2, hash5: Hash5, depth: nat, slot: nat,
                    mirror: Mirror, ix: map<IdHash, nat>, at: map<nat, IdHash>, fields: map<IdHash, nat>, leaves: map<nat, nat>,
                    mirror': Mirror, ix': map<IdHash, nat>, at': map<nat, IdHash>, fields': map<IdHash, nat>, leaves': map<nat, nat>)
    requires slot < Pow2(depth) && InverseMaps(Pow2(depth), ix, at) && InverseMaps(Pow2(depth), ix', at')
    requires Synced(hash5, hash5(0, 0, 0, 0, 0), ix, at, fields, leaves, mirror)
    requires Synced(hash5, hash5(0, 0, 0, 0, 0), ix', at', fields', leaves', mirror')
    requires Node(hash2, hash5(0, 0, 0, 0, 0), leaves, depth, 0) == Node(hash2, hash5(0, 0, 0, 0, 0), leaves', depth, 0)
    ensures slot in at ==> at[slot] in mirror
    ensures slot in at' ==> at'[slot] in mirror'
    ensures SlotArgs(mirror, at, slot) == SlotArgs(mirror', at', slot)
         || Collide5(hash5, SlotArgs(mirror, at, slot), SlotArgs(mirror', at', slot))
         || TreesCollide(hash2, hash5(0, 0, 0, 0, 0), leaves, leaves', depth)
  {
    hide Synced, InverseMaps, Node, TreesCollide;
    SlotHashed(hash5, Pow2(depth), mirror, ix, at, fields, leaves, slot);
    SlotHashed(hash5, Pow2(depth), mirror', ix', at', fields', leaves', slot);
    if !TreesCollide(hash2, hash5(0, 0, 0, 0, 0), leaves, leaves', depth) {
      SameRootIffSameLeaves(hash2, hash5(0, 0, 0, 0, 0), leaves, leaves', depth);
    }
  }

  // ----- range checks of the circuit -----

  /** The number with the given bits, lowest first. */
  function BitSum(bits: seq<nat>): nat
  {
    if bits == [] then 0 else bits[0] + 2 * BitSum(bits[1..])
  }

  function BitsOf(x: nat, n: nat): (bits: seq<nat>)
    ensures |bits| == n && forall i :: 0 <= i < n ==> bits[i] == 0 || bits[i] == 1
  {
    if n == 0 then [] else [x % 2] + BitsOf(x / 2, n - 1)
  }

  /** `Num2Bits(64)`: boolean signals that sum up to the input, over the field. */
  ghost predicate RangeChecked(q: nat, x: nat)
    requires q > 0
  {
    exists bits: seq<nat> :: |bits| == 64 && SumsTo(q, x, bits)
  }

  predicate SumsTo(q: nat, x: nat, bits: seq<nat>)
    requires q > 0
  {
    (forall i :: 0 <= i < |bits| ==> bits[i] < q && ForceBool(q, bits[i])) && BitSum(bits) % q == x
  }

  lemma {:induction false} BitSumBound(bits: seq<nat>)
    requires forall i :: 0 <= i < |bits| ==> bits[i] == 0 || bits[i] == 1
    ensures BitSum(bits) < Pow2(|bits|)
  {
    if bits != [] {
      BitSumBound(bits[1..]);
    }
  }

  lemma {:induction false} BitSumOfBits(x: nat, n: nat)
    requires x < Pow2(n)
    ensures BitSum(BitsOf(x, n)) == x
  {
    if n > 0 {
      BitSumOfBits(x / 2, n - 1);
    }
  }

  /** The range check passes exactly below `2^64`. */
  lemma RangeCheckMeaning(q: nat, x: nat)
    requires IsPrime(q) && Pow2(64) < q && x < q
    ensures RangeChecked(q, x) <==> x < Pow2(64)
  {
    hide IsPrime, ForceBool, BitSum, BitsOf, Pow2;
    if RangeChecked(q, x) {
      var bits :| |bits| == 64 && SumsTo(q, x, bits);
      forall i | 0 <= i < 64 ensures bits[i] == 0 || bits[i] == 1 {
        ForceBoolMeaning(q, bits[i]);
      }
      BitSumBound(bits);
      SmallMod(BitSum(bits), q);
    }
    if x < Pow2(64) {
      var bits := BitsOf(x, 64);
      PrimeAboveOne(q);
      forall i | 0 <= i < 64 ensures bits[i] < q && ForceBool(q, bits[i]) {
        ForceBoolMeaning(q, bits[i]);
      }
      BitSumOfBits(x, 64);
      SmallMod(x, q);
      assert SumsTo(q, x, bits);
    }
  }

  lemma PrimeAboveOne(q: nat)
    requires IsPrime(q)
    ensures q >= 2
  {
  }

  // ----- the circuit -----

  datatype Hashes = Hashes(hash2: Hash2, hash3: Hash3, hash5: Hash5)

  ghost predicate StateLeafHash(hash5: Hash5, q: nat, cid: nat, pkNormHash: nat, pkRecHash: nat, ver: nat, active: nat, leaf: nat)
    requires q > 0
  {
    RangeChecked(q, ver) && ForceBool(q, active) && leaf == hash5(cid, pkNormHash, pkRecHash, ver, active)
  }

  ghost predicate SessionBindingHash(hash3: Hash3, q: nat, ctxHash: nat, sessPkHash: nat, epoch: nat, bindHash: nat)
    requires q > 0
  {
    RangeChecked(q, epoch) && bindHash == hash3(ctxHash, sessPkHash, epoch)
  }

  ghost predicate AuthNullifier(hash3: Hash3, q: nat, cid: nat, ctxHash: nat, epoch: nat, nullifier: nat)
    requires q > 0
  {
    RangeChecked(q, epoch) && nullifier == hash3(cid, ctxHash, epoch)
  }

  /** Public inputs, and what the prover keeps to itself. */
  datatype Public = Public(root: nat, ctxHash: nat, sessPkHash: nat, epoch: nat)

  datatype Secret = Secret(sid: nat, rho: nat, pkNormHash: nat, pkRecHash: nat, ver: nat, path: Path)

  datatype Outputs = Outputs(nullifier: nat, bindHash: nat, leaf: nat)

  /** The constraints of the whole circuit have a solution. */
  ghost predicate AuthMembership(hs: Hashes, q: nat, depth: nat, pub: Public, sec: Secret, out: Outputs)
    requires q > 0
  {
    var cid := hs.hash2(sec.sid, sec.rho);
    && |sec.path.elements| == |sec.path.bits| == depth
    && StateLeafHash(hs.hash5, q, cid, sec.pkNormHash, sec.pkRecHash, sec.ver, 1, out.leaf)
    && Accepts(hs.hash2, q, out.leaf, pub.root, sec.path)
    && SessionBindingHash(hs.hash3, q, pub.ctxHash, pub.sessPkHash, pub.epoch, out.bindHash)
    && AuthNullifier(hs.hash3, q, cid, pub.ctxHash, pub.epoch, out.nullifier)
  }

  /** All inputs and all hash values are field elements. */
  ghost predicate InputsInField(hs: Hashes, q: nat, pub: Public, sec: Secret)
  {
    && IsPrime(q) && Pow2(64) < q && sec.ver < q && pub.epoch < q
    && FieldInputs(hs.hash2, q, 0, sec.path)
    && forall a, b, c, d, e :: hs.hash5(a, b, c, d, e) < q
  }

  /** The five values the prover claims for its record. */
  function Opened(hs: Hashes, sec: Secret): LeafArgs
  {
    (hs.hash2(sec.sid, sec.rho), sec.pkNormHash, sec.pkRecHash, sec.ver, 1)
  }

  /**
   What the circuit accepts: two numbers below `2^64`, the leaf of an active record
   with the opened commitment, a path from it to the root, and the two session hashes.
   */
  lemma MembershipMeaning(hs: Hashes, q: nat, depth: nat, pub: Public, sec: Secret, out: Outputs)
    requires InputsInField(hs, q, pub, sec)
    ensures AuthMembership(hs, q, depth, pub, sec, out) <==>
            && sec.ver < Pow2(64) && pub.epoch < Pow2(64) && |sec.path.elements| == depth
            && out.leaf == hs.hash5(hs.hash2(sec.sid, sec.rho), sec.pkNormHash, sec.pkRecHash, sec.ver, 1)
            && RootFromPath(hs.hash2, out.leaf, sec.path) == Ok(pub.root)
            && out.bindHash == hs.hash3(pub.ctxHash, pub.sessPkHash, pub.epoch)
            && out.nullifier == hs.hash3(hs.hash2(sec.sid, sec.rho), pub.ctxHash, pub.epoch)
  {
    hide IsPrime, RangeChecked, ForceBool, Accepts, Pow2, Fold;
    RangeCheckMeaning(q, sec.ver);
    RangeCheckMeaning(q, pub.epoch);
    PrimeAboveOne(q);
    ForceBoolMeaning(q, 1);
    var leaf := hs.hash5(hs.hash2(sec.sid, sec.rho), sec.pkNormHash, sec.pkRecHash, sec.ver, 1);
    CircuitEquivalence(hs.hash2, q, leaf, pub.root, sec.path);
  }

  /** The leaf written natively for an active record is the one leaf the circuit derives for it. */
  lemma NativeLeafIsCircuitLeaf(hash5: Hash5, q: nat, rec: Rec, leaf: nat)
    requires IsPrime(q) && Pow2(64) < q && rec.version < q
    ensures StateLeafHash(hash5, q, rec.cid, rec.pkNormHash, rec.pkRecHash, rec.version, 1, leaf)
       <==> rec.version < Pow2(64) && leaf == LeafValue(hash5, rec)
  {
    hide IsPrime, RangeChecked, ForceBool, Pow2;
    RangeCheckMeaning(q, rec.version);
    PrimeAboveOne(q);
    ForceBoolMeaning(q, 1);
  }

  // ----- a proof and the tree it is about -----

  /** The slot that the direction bits of a path lead to. */
  function SlotOf(path: Path): nat
  {
    BitSum(path.bits)
  }

  lemma {:induction false} AncestorShift(index: nat, l: nat)
    ensures Ancestor(index, l + 1) == Ancestor(index / 2, l)
  {
    if l > 0 {
      AncestorShift(index, l - 1);
    }
  }

  /** The bits of a number are the sides of its ancestors. */
  lemma {:induction false} SidesAreBits(bits: seq<nat>, l: nat)
    requires l < |bits| && forall i :: 0 <= i < |bits| ==> bits[i] == 0 || bits[i] == 1
    ensures Ancestor(BitSum(bits), l) % 2 == bits[l]
  {
    if l > 0 {
      AncestorShift(BitSum(bits), l - 1);
      SidesAreBits(bits[1..], l - 1);
    }
  }

  lemma SameBits(hash: Hash2, zero: nat, leaves: map<nat, nat>, path: Path)
    requires |path.elements| == |path.bits| && forall i :: 0 <= i < |path.bits| ==> path.bits[i] == 0 || path.bits[i] == 1
    ensures SlotOf(path) < Pow2(|path.bits|)
    ensures TreePath(hash, zero, leaves, |path.bits|, SlotOf(path)).bits == path.bits
  {
    hide Ancestor, BitSum, Node;
    var p := TreePath(hash, zero, leaves, |path.bits|, SlotOf(path));
    BitSumBound(path.bits);
    forall l | 0 <= l < |path.bits| ensures p.bits[l] == path.bits[l] {
      TreePathAt(hash, zero, leaves, |path.bits|, SlotOf(path), l);
      SidesAreBits(path.bits, l);
    }
  }

  /** A leaf with a path to the root is the leaf at the path's slot, or the two folds meet a collision. */
  lemma LeafIsThere(hash: Hash2, zero: nat, leaves: map<nat, nat>, depth: nat, leaf: nat, path: Path)
    requires |path.elements| == depth && RootFromPath(hash, leaf, path) == Ok(Node(hash, zero, leaves, depth, 0))
    ensures SlotOf(path) < Pow2(depth)
    ensures leaf == LeafAt(leaves, zero, SlotOf(path))
         || FoldsMeet(hash, leaf, path, LeafAt(leaves, zero, SlotOf(path)), TreePath(hash, zero, leaves, depth, SlotOf(path)))
  {
    hide Node, TreePath, SlotOf, FoldsMeet, Fold;
    var there := TreePath(hash, zero, leaves, depth, SlotOf(path));
    SameBits(hash, zero, leaves, path);
    TreePathCorrect(hash, zero, leaves, depth, SlotOf(path));
    PathBinding(hash, leaf, LeafAt(leaves, zero, SlotOf(path)), path, there, depth);
  }

  /** The tree is in sync with the mirror and has the root. */
  ghost predicate Anchored(hs: Hashes, depth: nat, root: nat, mirror: Mirror, ix: map<IdHash, nat>, at: map<nat, IdHash>,
                           fields: map<IdHash, nat>, leaves: map<nat, nat>)
  {
    var zero := hs.hash5(0, 0, 0, 0, 0);
    && InverseMaps(Pow2(depth), ix, at) && Synced(hs.hash5, zero, ix, at, fields, leaves, mirror)
    && root == Node(hs.hash2, zero, leaves, depth, 0)
  }

  /** A collision of one of the two hashes that the proof and the tree exhibit. */
  ghost predicate Exhibits(hs: Hashes, depth: nat, sec: Secret, out: Outputs, mirror: Mirror, at: map<nat, IdHash>, leaves: map<nat, nat>)
    requires |sec.path.elements| == |sec.path.bits| == depth
    requires SlotOf(sec.path) in at ==> at[SlotOf(sec.path)] in mirror
  {
    var zero, slot := hs.hash5(0, 0, 0, 0, 0), SlotOf(sec.path);
    || Collide5(hs.hash5, Opened(hs, sec), SlotArgs(mirror, at, slot))
    || FoldsMeet(hs.hash2, out.leaf, sec.path, LeafAt(leaves, zero, slot), TreePath(hs.hash2, zero, leaves, depth, slot))
  }

  /**
   Soundness. Whoever satisfies the circuit for the root has opened the record of an
   active identity of the mirror, the one at the slot its path names, or exhibits a
   collision. In particular an empty slot proves nothing.
   */
  lemma ProofOpensRecord(hs: Hashes, q: nat, depth: nat, pub: Public, sec: Secret, out: Outputs, mirror: Mirror,
                         ix: map<IdHash, nat>, at: map<nat, IdHash>, fields: map<IdHash, nat>, leaves: map<nat, nat>)
    requires InputsInField(hs, q, pub, sec) && Anchored(hs, depth, pub.root, mirror, ix, at, fields, leaves)
    requires AuthMembership(hs, q, depth, pub, sec, out)
    ensures SlotOf(sec.path) in at ==> at[SlotOf(sec.path)] in mirror
    ensures || Exhibits(hs, depth, sec, out, mirror, at, leaves)
            || (SlotOf(sec.path) in at
                && Active(mirror, at[SlotOf(sec.path)])
                   == Some(Rec(hs.hash2(sec.sid, sec.rho), sec.pkNormHash, sec.pkRecHash, sec.ver, true)))
  {
    hide Synced, InverseMaps, Node, FoldsMeet, TreePath, SlotOf, InputsInField, RootFromPath, AuthMembership;
    var zero := hs.hash5(0, 0, 0, 0, 0);
    ModulusPositive(hs, q, pub, sec);
    MembershipMeaning(hs, q, depth, pub, sec, out);
    PathShape(hs, q, depth, pub, sec, out);
    SlotHashed(hs.hash5, Pow2(depth), mirror, ix, at, fields, leaves, SlotOf(sec.path));
    LeafIsThere(hs.hash2, zero, leaves, depth, out.leaf, sec.path);
  }

  lemma ModulusPositive(hs: Hashes, q: nat, pub: Public, sec: Secret)
    requires InputsInField(hs, q, pub, sec)
    ensures q > 0
  {
  }

  lemma PathShape(hs: Hashes, q: nat, depth: nat, pub: Public, sec: Secret, out: Outputs)
    requires q > 0 && AuthMembership(hs, q, depth, pub, sec, out)
    ensures |sec.path.elements| == |sec.path.bits| == depth
  {
  }

  /**
   Completeness. The holder of an active record's opening satisfies the circuit with
   the path of its slot, whatever the context, exactly if version and epoch are below `2^64`.
   */
  lemma RecordHasProof(hs: Hashes, q: nat, depth: nat, pub: Public, sec: Secret, mirror: Mirror,
                       ix: map<IdHash, nat>, at: map<nat, IdHash>, fields: map<IdHash, nat>, leaves: map<nat, nat>, id: IdHash)
    requires InputsInField(hs, q, pub, sec) && Anchored(hs, depth, pub.root, mirror, ix, at, fields, leaves)
    requires Active(mirror, id) == Some(Rec(hs.hash2(sec.sid, sec.rho), sec.pkNormHash, sec.pkRecHash, sec.ver, true))
    requires id in ix && sec.path == TreePath(hs.hash2, hs.hash5(0, 0, 0, 0, 0), leaves, depth, ix[id])
    ensures (exists out :: AuthMembership(hs, q, depth, pub, sec, out)) <==> sec.ver < Pow2(64) && pub.epoch < Pow2(64)
  {
    hide Node, TreePath, InputsInField, RootFromPath, AuthMembership;
    var zero := hs.hash5(0, 0, 0, 0, 0);
    var cid := hs.hash2(sec.sid, sec.rho);
    var mine := Outputs(hs.hash3(cid, pub.ctxHash, pub.epoch), hs.hash3(pub.ctxHash, pub.sessPkHash, pub.epoch),
                        hs.hash5(cid, sec.pkNormHash, sec.pkRecHash, sec.ver, 1));
    TreePathCorrect(hs.hash2, zero, leaves, depth, ix[id]);
    ModulusPositive(hs, q, pub, sec);
    MembershipMeaning(hs, q, depth, pub, sec, mine);
    forall out | AuthMembership(hs, q, depth, pub, sec, out) ensures sec.ver < Pow2(64) && pub.epoch < Pow2(64) {
      MembershipMeaning(hs, q, depth, pub, sec, out);
    }
  }

  /** A tree cache in sync is such a tree, and a fresh cached path is such a path. */
  lemma CachedPathProves(cache: TreeCache, hs: Hashes, q: nat, pub: Public, sec: Secret, mirror: Mirror, id: IdHash, info: PathInfo)
    requires cache.Valid() && cache.InSync(mirror) && cache.Fresh(id, info)
    requires hs.hash2 == cache.hash2 && hs.hash5 == cache.hash5 && pub.root == cache.rootField
    requires InputsInField(hs, q, pub, sec) && sec.path == info.path
    requires Active(mirror, id) == Some(Rec(hs.hash2(sec.sid, sec.rho), sec.pkNormHash, sec.pkRecHash, sec.ver, true))
    ensures Anchored(hs, cache.depth, pub.root, mirror, cache.indexById, cache.idByIndex, cache.leafFieldById, cache.nodeCache[0])
    ensures sec.ver < Pow2(64) && pub.epoch < Pow2(64) ==> exists out :: AuthMembership(hs, q, cache.depth, pub, sec, out)
  {
    hide InputsInField, AuthMembership, Synced, InverseMaps, TreePath, Node;
    RecordHasProof(hs, q, cache.depth, pub, sec, mirror, cache.indexById, cache.idByIndex, cache.leafFieldById, cache.nodeCache[0], id);
  }

  /** Two proofs from one slot for one context and epoch carry the same nullifier, unless one of them exhibits a collision. */
  lemma OneNullifier(hs: Hashes, q: nat, depth: nat, pub: Public, pub': Public, sec: Secret, sec': Secret, out: Outputs, out': Outputs,
                     mirror: Mirror, ix: map<IdHash, nat>, at: map<nat, IdHash>, fields: map<IdHash, nat>, leaves: map<nat, nat>)
    requires InputsInField(hs, q, pub, sec) && InputsInField(hs, q, pub', sec')
    requires Anchored(hs, depth, pub.root, mirror, ix, at, fields, leaves)
    requires pub'.root == pub.root && pub'.ctxHash == pub.ctxHash && pub'.epoch == pub.epoch
    requires AuthMembership(hs, q, depth, pub, sec, out) && AuthMembership(hs, q, depth, pub', sec', out')
    requires SlotOf(sec'.path) == SlotOf(sec.path)
    ensures SlotOf(sec.path) in at ==> at[SlotOf(sec.path)] in mirror
    ensures out.nullifier == out'.nullifier || Exhibits(hs, depth, sec, out, mirror, at, leaves)
         || Exhibits(hs, depth, sec', out', mirror, at, leaves)
  {
    hide Anchored, InputsInField, RootFromPath, SlotOf, Exhibits, RangeChecked, Accepts, ForceBool;
    ProofOpensRecord(hs, q, depth, pub, sec, out, mirror, ix, at, fields, leaves);
    ProofOpensRecord(hs, q, depth, pub', sec', out', mirror, ix, at, fields, leaves);
  }
}
