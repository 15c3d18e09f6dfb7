/** Linear probing over a ring of `cap` slots. */
module Slots {
  import opened Outcomes
  import opened NumberTheory

  function Next(cap: nat, index: nat): nat
    requires index < cap
  {
    (index + 1) % cap
  }

  /** The `k`-th slot probed from `start`. */
  function ProbeAt(cap: nat, start: nat, k: nat): (r: nat)
    requires start < cap && k <= cap
    ensures r < cap
  {
    if start + k < cap then start + k else start + k - cap
  }

  lemma NextIsProbe(cap: nat, start: nat, k: nat)
    requires start < cap && k < cap
    ensures Next(cap, ProbeAt(cap, start, k)) == ProbeAt(cap, start, k + 1)
  {
    var x := ProbeAt(cap, start, k);
    if x + 1 < cap {
      assert (x + 1) % cap == x + 1;
    } else {
      assert cap % cap == 0;
    }
  }

  /** `r` is the first free slot probed from `start`, at distance `k`. */
  predicate FirstFreeAt(cap: nat, occupied: set<nat>, start: nat, k: nat, r: nat)
  {
    && start < cap && k < cap && r == ProbeAt(cap, start, k) && r !in occupied
    && forall j :: 0 <= j < k ==> ProbeAt(cap, start, j) in occupied
  }

  ghost predicate FirstFree(cap: nat, occupied: set<nat>, start: nat, r: nat)
  {
    exists k :: FirstFreeAt(cap, occupied, start, k, r)
  }

  /** `k` slots above `start`, going round. */
  function Around(cap: nat, start: nat, k: nat): nat
    requires cap > 0
  {
    (start + k) % cap
  }

  lemma ProbeIsAround(cap: nat, start: nat, k: nat)
    requires start < cap && k <= cap
    ensures ProbeAt(cap, start, k) == Around(cap, start, k)
  {
    if start + k < cap {
      ModUnique(start + k, 0, start + k, cap);
    } else {
      ModUnique(start + k, 1, start + k - cap, cap);
    }
  }

  /** The first free slot is the nearest one above the start, going round. */
  lemma FirstFreeMeaning(cap: nat, occupied: set<nat>, start: nat, r: nat)
    requires start < cap
    ensures FirstFree(cap, occupied, start, r) <==>
            exists k :: 0 <= k < cap && r == Around(cap, start, k) && r !in occupied
                        && forall j :: 0 <= j < k ==> Around(cap, start, j) in occupied
  {
    hide Around, ProbeAt;
    forall k | 0 <= k <= cap ensures ProbeAt(cap, start, k) == Around(cap, start, k) {
      ProbeIsAround(cap, start, k);
    }
    if FirstFree(cap, occupied, start, r) {
      var k :| FirstFreeAt(cap, occupied, start, k, r);
      assert r == Around(cap, start, k);
    }
    if k :| 0 <= k < cap && r == Around(cap, start, k) && r !in occupied
            && forall j :: 0 <= j < k ==> Around(cap, start, j) in occupied {
      assert FirstFreeAt(cap, occupied, start, k, r);
    }
  }

  lemma FirstFreeUnique(cap: nat, occupied: set<nat>, start: nat, r: nat, s: nat)
    requires FirstFree(cap, occupied, start, r) && FirstFree(cap, occupied, start, s)
    ensures r == s
  {
    var k :| FirstFreeAt(cap, occupied, start, k, r);
    var j :| FirstFreeAt(cap, occupied, start, j, s);
  }

  /** Every slot is probed. */
  lemma ProbeReaches(cap: nat, start: nat, slot: nat) returns (k: nat)
    requires start < cap && slot < cap
    ensures k < cap && ProbeAt(cap, start, k) == slot
  {
    k := if slot >= start then slot - start else slot + cap - start;
  }

  /** A probe that finds nothing has seen every slot taken. */
  lemma ProbeExhausted(cap: nat, occupied: set<nat>, start: nat)
    requires start < cap && forall j :: 0 <= j < cap ==> ProbeAt(cap, start, j) in occupied
    ensures forall slot :: 0 <= slot < cap ==> slot in occupied
  {
    forall slot | 0 <= slot < cap ensures slot in occupied {
      var k := ProbeReaches(cap, start, slot);
    }
  }

  lemma {:induction false} FindFree(cap: nat, occupied: set<nat>, start: nat, slot: nat, k: nat) returns (r: nat)
    requires start < cap && slot < cap && slot !in occupied && k <= cap
    requires forall j :: 0 <= j < k ==> ProbeAt(cap, start, j) in occupied
    ensures FirstFree(cap, occupied, start, r)
    decreases cap - k
  {
    if k < cap && ProbeAt(cap, start, k) !in occupied {
      r := ProbeAt(cap, start, k);
      assert FirstFreeAt(cap, occupied, start, k, r);
    } else if k < cap {
      r := FindFree(cap, occupied, start, slot, k + 1);
    } else {
      ProbeExhausted(cap, occupied, start);
      assert false;
    }
  }

  /** Occupied slots of a ring that is not full leave a free one. */
  lemma FreeExists(cap: nat, occupied: set<nat>) returns (slot: nat)
    requires forall s :: s in occupied ==> s < cap
    requires |occupied| < cap
    ensures slot < cap && slot !in occupied
  {
    RingSize(cap);
    if Ring(cap) <= occupied {
      SubsetSize(Ring(cap), occupied);
    }
    slot :| slot in Ring(cap) && slot !in occupied;
  }

  lemma SubsetSize(a: set<nat>, b: set<nat>)
    requires a <= b
    ensures |a| <= |b|
  {
    assert b == a + (b - a);
  }

  ghost function Ring(cap: nat): (r: set<nat>)
    ensures forall s: nat :: s in r <==> s < cap
  {
    if cap == 0 then {} else Ring(cap - 1) + {cap - 1}
  }

  lemma {:induction false} RingSize(cap: nat)
    ensures |Ring(cap)| == cap
  {
    if cap > 0 {
      RingSize(cap - 1);
    }
  }

  // ----- insertion order does not matter -----

  /** The occupied slots after one insertion with preferred slot `p`. */
  ghost predicate Inserted(cap: nat, before: set<nat>, p: nat, after: set<nat>)
  {
    exists r :: FirstFree(cap, before, p, r) && after == before + {r}
  }

  /** A longer run of taken slots moves the search on to where that run ends. */
  lemma SkipTaken(cap: nat, occupied: set<nat>, p: nat, a: nat, k: nat, r: nat)
    requires p < cap && k < cap && a == ProbeAt(cap, p, k)
    requires forall j :: 0 <= j <= k ==> ProbeAt(cap, p, j) in occupied
    requires FirstFree(cap, occupied, a, r)
    ensures FirstFree(cap, occupied, p, r)
  {
    var m :| FirstFreeAt(cap, occupied, a, m, r);
    var back := if k + m >= cap then k + m - cap else 0;
    assert ProbeAt(cap, p, back) != r;
    forall j | 0 <= j < k + m ensures ProbeAt(cap, p, j) in occupied {
      if j > k {
        assert ProbeAt(cap, p, j) == ProbeAt(cap, a, j - k);
      }
    }
    assert FirstFreeAt(cap, occupied, p, k + m, r);
  }

  /** Two insertions in either order leave the same slots occupied. */
  lemma InsertionsCommute(cap: nat, s: set<nat>, p: nat, q: nat, sp: set<nat>, sq: set<nat>, spq: set<nat>, sqp: set<nat>)
    requires Inserted(cap, s, p, sp) && Inserted(cap, s, q, sq)
    requires Inserted(cap, sp, q, spq) && Inserted(cap, sq, p, sqp)
    ensures spq == sqp
  {
    var a :| FirstFree(cap, s, p, a) && sp == s + {a};
    var b :| FirstFree(cap, s, q, b) && sq == s + {b};
    var c :| FirstFree(cap, sp, q, c) && spq == sp + {c};
    var d :| FirstFree(cap, sq, p, d) && sqp == sq + {d};
    if a != b {
      StillFirst(cap, s, q, b, a);
      StillFirst(cap, s, p, a, b);
      FirstFreeUnique(cap, sp, q, b, c);
      FirstFreeUnique(cap, sq, p, a, d);
    } else {
      NextFromHere(cap, s, p, q, a, c);
      FirstFreeUnique(cap, sp, p, c, d);
    }
  }

  lemma StillFirst(cap: nat, s: set<nat>, q: nat, b: nat, a: nat)
    requires FirstFree(cap, s, q, b) && a != b
    ensures FirstFree(cap, s + {a}, q, b)
  {
    var k :| FirstFreeAt(cap, s, q, k, b);
    assert FirstFreeAt(cap, s + {a}, q, k, b);
  }

  /** Two searches that met at `a` meet again once `a` is taken. */
  lemma NextFromHere(cap: nat, s: set<nat>, p: nat, q: nat, a: nat, c: nat)
    requires FirstFree(cap, s, p, a) && FirstFree(cap, s, q, a) && FirstFree(cap, s + {a}, q, c)
    ensures FirstFree(cap, s + {a}, p, c)
  {
    var k :| FirstFreeAt(cap, s, p, k, a);
    var m :| FirstFreeAt(cap, s, q, m, a);
    var c' := FindFree(cap, s + {a}, a, c, 0);
    SkipTaken(cap, s + {a}, q, a, m, c');
    FirstFreeUnique(cap, s + {a}, q, c, c');
    SkipTaken(cap, s + {a}, p, a, k, c);
  }

  /** The occupied slots after inserting keys with the given preferred slots, in order. */
  ghost predicate InsertedAll(cap: nat, before: set<nat>, prefs: seq<nat>, after: set<nat>)
    decreases |prefs|
  {
    if prefs == [] then after == before
    else exists mid :: Inserted(cap, before, prefs[0], mid) && InsertedAll(cap, mid, prefs[1..], after)
  }

  /** One insertion is deterministic. */
  lemma InsertedUnique(cap: nat, before: set<nat>, p: nat, x: set<nat>, y: set<nat>)
    requires Inserted(cap, before, p, x) && Inserted(cap, before, p, y)
    ensures x == y
  {
    var r :| FirstFree(cap, before, p, r) && x == before + {r};
    var s :| FirstFree(cap, before, p, s) && y == before + {s};
    FirstFreeUnique(cap, before, p, r, s);
  }

  function Without(s: seq<nat>, i: nat): (r: seq<nat>)
    requires i < |s|
    ensures |r| == |s| - 1
  {
    s[..i] + s[i + 1..]
  }

  lemma InsertedCons(cap: nat, before: set<nat>, p: nat, mid: set<nat>, rest: seq<nat>, after: set<nat>)
    requires Inserted(cap, before, p, mid) && InsertedAll(cap, mid, rest, after)
    ensures InsertedAll(cap, before, [p] + rest, after)
  {
    assert ([p] + rest)[0] == p && ([p] + rest)[1..] == rest;
  }

  lemma InsertedSplit(cap: nat, before: set<nat>, p: nat, rest: seq<nat>, after: set<nat>) returns (mid: set<nat>)
    requires InsertedAll(cap, before, [p] + rest, after)
    ensures Inserted(cap, before, p, mid) && InsertedAll(cap, mid, rest, after)
  {
    assert ([p] + rest)[0] == p && ([p] + rest)[1..] == rest;
    mid :| Inserted(cap, before, p, mid) && InsertedAll(cap, mid, rest, after);
  }

  /** Any one of the keys may be inserted first. */
  lemma {:induction false} InsertFirst(cap: nat, before: set<nat>, prefs: seq<nat>, i: nat, after: set<nat>)
    requires i < |prefs| && prefs[i] < cap && InsertedAll(cap, before, prefs, after)
    ensures InsertedAll(cap, before, [prefs[i]] + Without(prefs, i), after)
    decreases i
  {
    hide InsertedAll, Inserted, Without;
    var p, q, rest := prefs[0], prefs[i], prefs[1..];
    WithoutRest(prefs, i);
    if i > 0 {
      var sp := InsertedSplit(cap, before, p, rest, after);
      InsertFirst(cap, sp, rest, i - 1, after);
      var tail := Without(rest, i - 1);
      var spq := InsertedSplit(cap, sp, q, tail, after);
      Swap(cap, before, p, q, sp, spq, tail, after);
    }
  }

  lemma WithoutRest(prefs: seq<nat>, i: nat)
    requires i < |prefs|
    ensures prefs == [prefs[0]] + prefs[1..]
    ensures i == 0 ==> Without(prefs, i) == prefs[1..]
    ensures i > 0 ==> Without(prefs, i) == [prefs[0]] + Without(prefs[1..], i - 1)
  {
  }

  lemma Swap(cap: nat, before: set<nat>, p: nat, q: nat, sp: set<nat>, spq: set<nat>, tail: seq<nat>, after: set<nat>)
    requires Inserted(cap, before, p, sp) && Inserted(cap, sp, q, spq) && InsertedAll(cap, spq, tail, after) && q < cap
    ensures InsertedAll(cap, before, [q] + ([p] + tail), after)
  {
    var sq, sqp := InsertionsExist(cap, before, p, q, sp, spq);
    InsertionsCommute(cap, before, p, q, sp, sq, spq, sqp);
    InsertedCons(cap, sq, p, sqp, tail, after);
    InsertedCons(cap, before, q, sq, [p] + tail, after);
  }

  /** If two keys fit in one order they fit in the other. */
  lemma InsertionsExist(cap: nat, before: set<nat>, p: nat, q: nat, sp: set<nat>, spq: set<nat>)
    returns (sq: set<nat>, sqp: set<nat>)
    requires Inserted(cap, before, p, sp) && Inserted(cap, sp, q, spq) && q < cap
    ensures Inserted(cap, before, q, sq) && Inserted(cap, sq, p, sqp)
  {
    var a :| FirstFree(cap, before, p, a) && sp == before + {a};
    var c :| FirstFree(cap, sp, q, c) && spq == sp + {c};
    var b := FindFree(cap, before, q, c, 0);
    sq := before + {b};
    var d := FindFree(cap, sq, p, if b == a then c else a, 0);
    sqp := sq + {d};
  }

  lemma SameMultiset(p: nat, xs: seq<nat>, ys: seq<nat>, i: nat)
    requires i < |ys| && ys[i] == p && multiset([p] + xs) == multiset(ys)
    ensures multiset(xs) == multiset(Without(ys, i))
  {
    assert ys == ys[..i] + [p] + ys[i + 1..];
    assert multiset(ys) == multiset(ys[..i]) + multiset([p]) + multiset(ys[i + 1..]);
    assert multiset(Without(ys, i)) == multiset(ys[..i]) + multiset(ys[i + 1..]);
    assert multiset([p] + xs) == multiset([p]) + multiset(xs);
    assert multiset(xs) == multiset([p] + xs) - multiset([p]);
  }

  /** The occupied slots depend only on which keys were inserted, not on their order. */
  lemma {:induction false} OrderIndependence(cap: nat, before: set<nat>, xs: seq<nat>, ys: seq<nat>, ax: set<nat>, ay: set<nat>)
    requires multiset(xs) == multiset(ys) && forall i :: 0 <= i < |xs| ==> xs[i] < cap
    requires InsertedAll(cap, before, xs, ax) && InsertedAll(cap, before, ys, ay)
    ensures ax == ay
    decreases |xs|
  {
    if xs == [] {
      assert |multiset(ys)| == 0;
    } else {
      var p, rest := xs[0], xs[1..];
      assert xs == [p] + rest;
      assert p in multiset(ys);
      var i :| 0 <= i < |ys| && ys[i] == p;
      InsertFirst(cap, before, ys, i, ay);
      SameMultiset(p, rest, ys, i);
      var mx := InsertedSplit(cap, before, p, rest, ax);
      var my := InsertedSplit(cap, before, p, Without(ys, i), ay);
      InsertedUnique(cap, before, p, mx, my);
      OrderIndependence(cap, mx, rest, Without(ys, i), ax, ay);
    }
  }

  /** Inserting one more key after the others. */
  lemma {:induction false} InsertedSnoc(cap: nat, before: set<nat>, prefs: seq<nat>, mid: set<nat>, p: nat, after: set<nat>)
    requires InsertedAll(cap, before, prefs, mid) && Inserted(cap, mid, p, after)
    ensures InsertedAll(cap, before, prefs + [p], after)
    decreases |prefs|
  {
    if prefs == [] {
      assert prefs + [p] == [p] + [];
      InsertedCons(cap, before, p, after, [], after);
    } else {
      assert prefs == [prefs[0]] + prefs[1..];
      var next := InsertedSplit(cap, before, prefs[0], prefs[1..], mid);
      InsertedSnoc(cap, next, prefs[1..], mid, p, after);
      InsertedCons(cap, before, prefs[0], next, prefs[1..] + [p], after);
      assert prefs + [p] == [prefs[0]] + (prefs[1..] + [p]);
    }
  }

  /** A free preferred slot is taken as it is. */
  lemma PreferredFree(cap: nat, occupied: set<nat>, p: nat, r: nat)
    requires p < cap && p !in occupied && FirstFree(cap, occupied, p, r)
    ensures r == p
  {
    assert FirstFreeAt(cap, occupied, p, 0, p);
    FirstFreeUnique(cap, occupied, p, p, r);
  }

  /**
   Why incremental and full rebuilds can differ: a key displaced by an earlier
   one with the same preferred slot stays displaced after that one is released,
   while a fresh insertion puts it at its preferred slot.
   */
  lemma DisplacedStays(cap: nat, p: nat, displaced: nat, renewed: nat)
    requires cap >= 2 && p < cap
    requires FirstFree(cap, {p}, p, displaced) && FirstFree(cap, {}, p, renewed)
    ensures renewed == p && displaced == Next(cap, p) && displaced != renewed
  {
    PreferredFree(cap, {}, p, renewed);
    NextIsProbe(cap, p, 0);
    assert ProbeAt(cap, p, 0) == p;
    assert FirstFreeAt(cap, {p}, p, 1, ProbeAt(cap, p, 1));
    FirstFreeUnique(cap, {p}, p, displaced, ProbeAt(cap, p, 1));
  }
}
