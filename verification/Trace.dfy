/** From extracted roots to accused guardians, and the check of such an accusation; C++ and JavaScript versions. */
module Trace {
  import opened Outcomes
  import opened NumberTheory
  import opened Hex
  import opened ShareField
  import opened FieldText
  import opened Envelope
  import opened Sharing

  /** A guardian's key, its digest normalised and in lower case. */
  datatype Entry = Entry(index: nat, digest: string)

  /** The digest that belongs to a root. */
  type Ui = string -> string

  datatype Hit = Hit(index: nat, root: string)

  // ----- matching -----

  predicate Seen(hits: seq<Hit>, index: nat)
  {
    exists i :: 0 <= i < |hits| && hits[i].index == index
  }

  /** The hits after comparing one root with the first `k` entries. */
  function HitsOfRoot(table: seq<Entry>, digest: string, root: string, k: nat, hits: seq<Hit>): seq<Hit>
    requires k <= |table|
  {
    if k == 0 then hits else
      var before := HitsOfRoot(table, digest, root, k - 1, hits);
      if table[k - 1].digest == digest && !Seen(before, table[k - 1].index)
      then before + [Hit(table[k - 1].index, root)] else before
  }

  /** Every root against every entry; a guardian counts once, with the first root that finds it. */
  function Hits(table: seq<Entry>, ui: Ui, roots: seq<string>): seq<Hit>
  {
    if roots == [] then [] else
      var root := roots[|roots| - 1];
      HitsOfRoot(table, ui(root), root, |table|, Hits(table, ui, roots[..|roots| - 1]))
  }

  function Indices(hits: seq<Hit>): (r: seq<nat>)
    ensures |r| == |hits|
  {
    seq(|hits|, i requires 0 <= i < |hits| => hits[i].index)
  }

  function Roots(hits: seq<Hit>): (r: seq<string>)
    ensures |r| == |hits|
  {
    seq(|hits|, i requires 0 <= i < |hits| => hits[i].root)
  }

  // ----- sorting -----

  function Insert(x: nat, s: seq<nat>): (r: seq<nat>)
    ensures |r| == |s| + 1
    ensures forall y :: y in r <==> y == x || y in s
  {
    if s == [] then [x] else if x <= s[0] then [x] + s else [s[0]] + Insert(x, s[1..])
  }

  function Sort(s: seq<nat>): (r: seq<nat>)
    ensures |r| == |s|
    ensures forall y :: y in r <==> y in s
  {
    if s == [] then [] else Insert(s[0], Sort(s[1..]))
  }

  predicate Ascending(s: seq<nat>)
  {
    forall i, j :: 0 <= i < j < |s| ==> s[i] <= s[j]
  }

  predicate StrictlyAscending(s: seq<nat>)
  {
    forall i, j :: 0 <= i < j < |s| ==> s[i] < s[j]
  }

  lemma {:induction false} InsertAscending(x: nat, s: seq<nat>)
    requires Ascending(s)
    ensures Ascending(Insert(x, s))
  {
    if s != [] && x > s[0] {
      InsertAscending(x, s[1..]);
      var rest := Insert(x, s[1..]);
      forall i | 0 <= i < |rest| ensures s[0] <= rest[i] {
        assert rest[i] in rest;
      }
    }
  }

  lemma {:induction false} SortAscending(s: seq<nat>)
    ensures Ascending(Sort(s))
  {
    if s != [] {
      SortAscending(s[1..]);
      InsertAscending(s[0], Sort(s[1..]));
    }
  }

  lemma {:induction false} SortFixed(s: seq<nat>)
    requires Ascending(s)
    ensures Sort(s) == s
  {
    if s != [] {
      SortFixed(s[1..]);
    }
  }

  /** Sorting a list without repeats leaves it alone exactly when it ascends strictly. */
  lemma SortIsIdentity(s: seq<nat>)
    requires DistinctNats(s)
    ensures Sort(s) == s <==> StrictlyAscending(s)
  {
    SortAscending(s);
    if StrictlyAscending(s) {
      SortFixed(s);
    }
  }

  // ----- the check of an accusation -----

  datatype Verdict = Accepted | EmptyAccusedSet | ArityMismatch | DuplicateIndex | MissingIndex | DigestMismatch

  /** Later entries overwrite earlier ones with the same index. */
  function TableMap(table: seq<Entry>): map<nat, string>
  {
    if table == [] then map[]
    else TableMap(table[..|table| - 1])[table[|table| - 1].index := table[|table| - 1].digest]
  }

  function CheckFrom(keys: map<nat, string>, accused: seq<nat>, proof: seq<string>, ui: Ui, i: nat): Verdict
    requires |accused| == |proof| && i <= |accused|
    decreases |accused| - i
  {
    if i == |accused| then Accepted
    else if accused[i] in accused[..i] then DuplicateIndex
    else if accused[i] !in keys then MissingIndex
    else if ui(proof[i]) != keys[accused[i]] then DigestMismatch
    else CheckFrom(keys, accused, proof, ui, i + 1)
  }

  function Check(table: seq<Entry>, accused: seq<nat>, proof: seq<string>, ui: Ui): Verdict
  {
    if |accused| != |proof| then ArityMismatch
    else if accused == [] then EmptyAccusedSet
    else CheckFrom(TableMap(table), accused, proof, ui, 0)
  }

  /** Root `i` belongs to accused guardian `i`. */
  predicate Witnessed(keys: map<nat, string>, accused: seq<nat>, proof: seq<string>, ui: Ui, i: nat)
    requires i < |accused| == |proof|
  {
    accused[i] in keys && keys[accused[i]] == ui(proof[i])
  }

  lemma {:induction false} CheckMeans(keys: map<nat, string>, accused: seq<nat>, proof: seq<string>, ui: Ui, i: nat)
    requires |accused| == |proof| && i <= |accused|
    ensures CheckFrom(keys, accused, proof, ui, i) == Accepted <==>
            forall k :: i <= k < |accused| ==> accused[k] !in accused[..k] && Witnessed(keys, accused, proof, ui, k)
    decreases |accused| - i
  {
    if i < |accused| {
      CheckMeans(keys, accused, proof, ui, i + 1);
    }
  }

  // ----- tables without repeats -----

  predicate DistinctTable(table: seq<Entry>)
  {
    forall j, k :: 0 <= j < k < |table| ==> table[j].index != table[k].index && table[j].digest != table[k].digest
  }

  /** Guardian `index` has the digest. */
  predicate Owns(table: seq<Entry>, index: nat, digest: string)
  {
    exists k :: 0 <= k < |table| && table[k] == Entry(index, digest)
  }

  lemma {:induction false} TableMapOwns(table: seq<Entry>, index: nat, digest: string)
    requires DistinctTable(table)
    ensures (index in TableMap(table) && TableMap(table)[index] == digest) <==> Owns(table, index, digest)
  {
    if table != [] {
      var before, last := table[..|table| - 1], table[|table| - 1];
      TableMapOwns(before, index, digest);
      if Owns(before, index, digest) {
        var k :| 0 <= k < |before| && before[k] == Entry(index, digest);
        assert table[k] == Entry(index, digest);
      }
      if Owns(table, index, digest) && last.index != index {
        var k :| 0 <= k < |table| && table[k] == Entry(index, digest);
        assert before[k] == Entry(index, digest);
      }
      if last == Entry(index, digest) {
        assert table[|table| - 1] == Entry(index, digest);
      }
    }
  }

  lemma OneOwner(table: seq<Entry>, a: nat, b: nat, digest: string)
    requires DistinctTable(table) && Owns(table, a, digest) && Owns(table, b, digest)
    ensures a == b
  {
    var j :| 0 <= j < |table| && table[j] == Entry(a, digest);
    var k :| 0 <= k < |table| && table[k] == Entry(b, digest);
    assert j == k;
  }

  /** The hits are distinct, each with a root of its own guardian. */
  predicate GoodHits(table: seq<Entry>, ui: Ui, roots: seq<string>, hits: seq<Hit>)
  {
    && DistinctNats(Indices(hits))
    && (forall i :: 0 <= i < |hits| ==> Owns(table, hits[i].index, ui(hits[i].root)) && hits[i].root in roots)
  }

  /** One root adds its guardian if that is new, and nothing else. */
  lemma {:induction false} HitsOfRootAdd(table: seq<Entry>, digest: string, root: string, k: nat, hits: seq<Hit>)
    requires DistinctTable(table) && k <= |table|
    ensures var after := HitsOfRoot(table, digest, root, k, hits);
            if exists j :: 0 <= j < k && table[j].digest == digest && !Seen(hits, table[j].index)
            then exists index :: after == hits + [Hit(index, root)] && Owns(table, index, digest) && !Seen(hits, index)
            else after == hits
  {
    if k > 0 {
      HitsOfRootAdd(table, digest, root, k - 1, hits);
      if table[k - 1].digest == digest {
        assert Owns(table, table[k - 1].index, digest) by {
          assert table[k - 1] == Entry(table[k - 1].index, digest);
        }
      }
    }
  }

  /** Which guardian's digest a root has, if any. */
  predicate Finds(table: seq<Entry>, ui: Ui, root: string, index: nat)
  {
    Owns(table, index, ui(root))
  }

  lemma HitsStep(table: seq<Entry>, ui: Ui, before: seq<string>, root: string)
    requires DistinctTable(table)
    ensures var hits, more := Hits(table, ui, before), Hits(table, ui, before + [root]);
            || (more == hits && forall index :: Finds(table, ui, root, index) ==> Seen(hits, index))
            || (exists index :: more == hits + [Hit(index, root)] && Finds(table, ui, root, index) && !Seen(hits, index))
  {
    var roots := before + [root];
    assert roots[..|roots| - 1] == before && roots[|roots| - 1] == root;
    var hits := Hits(table, ui, before);
    HitsOfRootAdd(table, ui(root), root, |table|, hits);
    if !(exists j :: 0 <= j < |table| && table[j].digest == ui(root) && !Seen(hits, table[j].index)) {
      forall index | Finds(table, ui, root, index) ensures Seen(hits, index) {
        var j :| 0 <= j < |table| && table[j] == Entry(index, ui(root));
        assert table[j].digest == ui(root);
      }
    }
  }

  /** The accused are exactly the guardians that some root finds. */
  lemma {:induction false} HitsAreFound(table: seq<Entry>, ui: Ui, roots: seq<string>)
    requires DistinctTable(table)
    ensures GoodHits(table, ui, roots, Hits(table, ui, roots)) && |Hits(table, ui, roots)| <= |roots|
    ensures forall index :: Seen(Hits(table, ui, roots), index) <==>
              exists i :: 0 <= i < |roots| && Finds(table, ui, roots[i], index)
  {
    if roots != [] {
      var before, root := roots[..|roots| - 1], roots[|roots| - 1];
      assert roots == before + [root];
      HitsAreFound(table, ui, before);
      HitsStep(table, ui, before, root);
      var hits, more := Hits(table, ui, before), Hits(table, ui, roots);
      assert more == hits || Indices(more) == Indices(hits) + [more[|hits|].index];
      forall i | 0 <= i < |hits| ensures more == hits || Indices(hits)[i] != more[|hits|].index {
        assert Seen(hits, hits[i].index);
      }
      forall index ensures Seen(more, index) <==> exists i :: 0 <= i < |roots| && Finds(table, ui, roots[i], index) {
        SeenStep(table, ui, before, root, index);
      }
    }
  }

  lemma SeenStep(table: seq<Entry>, ui: Ui, before: seq<string>, root: string, index: nat)
    requires DistinctTable(table)
    requires Seen(Hits(table, ui, before), index) <==> exists i :: 0 <= i < |before| && Finds(table, ui, before[i], index)
    ensures Seen(Hits(table, ui, before + [root]), index) <==>
            exists i :: 0 <= i < |before + [root]| && Finds(table, ui, (before + [root])[i], index)
  {
    var roots, hits, more := before + [root], Hits(table, ui, before), Hits(table, ui, before + [root]);
    HitsStep(table, ui, before, root);
    if Seen(more, index) {
      var i :| 0 <= i < |more| && more[i].index == index;
      if i < |hits| {
        assert hits[i] == more[i];
        assert Seen(hits, index);
        var k :| 0 <= k < |before| && Finds(table, ui, before[k], index);
        assert roots[k] == before[k];
      } else {
        assert roots[|before|] == root;
      }
    }
    if k :| 0 <= k < |roots| && Finds(table, ui, roots[k], index) {
      if k < |before| {
        assert before[k] == roots[k];
        var i :| 0 <= i < |hits| && hits[i].index == index;
        assert more[i] == hits[i];
      } else if more == hits {
        assert Seen(hits, index);
      } else {
        var found :| more == hits + [Hit(found, root)] && Finds(table, ui, root, found);
        OneOwner(table, found, index, ui(root));
        assert more[|hits|].index == index;
      }
    }
  }

  /** As many hits as roots: root `i` made hit `i`. */
  lemma {:induction false} FullHits(table: seq<Entry>, ui: Ui, roots: seq<string>, i: nat)
    requires DistinctTable(table) && |Hits(table, ui, roots)| == |roots| && i < |roots|
    ensures Hits(table, ui, roots)[i].root == roots[i]
  {
    var before, root := roots[..|roots| - 1], roots[|roots| - 1];
    assert roots == before + [root];
    HitsAreFound(table, ui, before);
    HitsStep(table, ui, before, root);
    if i < |before| {
      FullHits(table, ui, before, i);
    }
  }

  /** Roots that find strictly ascending guardians each make a hit. */
  lemma {:induction false} AscendingHits(table: seq<Entry>, ui: Ui, roots: seq<string>, found: seq<nat>)
    requires DistinctTable(table) && |found| == |roots| && DistinctNats(found)
    requires forall i :: 0 <= i < |roots| ==> Finds(table, ui, roots[i], found[i])
    ensures Indices(Hits(table, ui, roots)) == found && Roots(Hits(table, ui, roots)) == roots
  {
    if roots != [] {
      var n := |roots| - 1;
      var before, root := roots[..n], roots[n];
      assert roots == before + [root];
      AscendingHits(table, ui, before, found[..n]);
      HitsStep(table, ui, before, root);
      var hits, more := Hits(table, ui, before), Hits(table, ui, roots);
      forall i | 0 <= i < |hits| ensures hits[i].index != found[n] {
        assert Indices(hits)[i] == found[i];
      }
      assert Finds(table, ui, root, found[n]) && !Seen(hits, found[n]);
      var index :| more == hits + [Hit(index, root)] && Finds(table, ui, root, index);
      OneOwner(table, index, found[n], ui(root));
      assert Indices(more) == Indices(hits) + [index];
      assert Roots(more) == Roots(hits) + [root];
    }
  }

  /** A sorted accusation passes the check against its own witnesses exactly when it was found in ascending order. */
  lemma CheckOfHits(table: seq<Entry>, ui: Ui, roots: seq<string>)
    requires DistinctTable(table)
    ensures var hits := Hits(table, ui, roots);
            Check(table, Sort(Indices(hits)), Roots(hits), ui) == Accepted <==> hits != [] && StrictlyAscending(Indices(hits))
  {
    var hits := Hits(table, ui, roots);
    var found, proof := Indices(hits), Roots(hits);
    var accused := Sort(found);
    HitsAreFound(table, ui, roots);
    SortIsIdentity(found);
    CheckMeans(TableMap(table), accused, proof, ui, 0);
    forall i | 0 <= i < |hits| ensures Witnessed(TableMap(table), accused, proof, ui, i) <==> accused[i] == found[i] {
      TableMapOwns(table, accused[i], ui(proof[i]));
      assert Owns(table, hits[i].index, ui(hits[i].root));
      if Owns(table, accused[i], ui(proof[i])) {
        OneOwner(table, accused[i], found[i], ui(proof[i]));
      }
    }
    if hits != [] && Check(table, accused, proof, ui) == Accepted {
      forall i | 0 <= i < |hits| ensures accused[i] == found[i] {
        assert Witnessed(TableMap(table), accused, proof, ui, i);
      }
      assert accused == found;
    }
    if StrictlyAscending(found) {
      forall i | 0 <= i < |hits| ensures accused[i] !in accused[..i] {
      }
    }
  }

  // ----- the two tracers -----

  datatype Result = Result(ok: bool, accused: seq<nat>, proof: seq<string>, verdict: Verdict)

  /** C++: all roots are witnesses, and the result must pass the check. */
  function Traced(table: seq<Entry>, ui: Ui, roots: seq<string>): Result
  {
    var accused := Sort(Indices(Hits(table, ui, roots)));
    var verdict := Check(table, accused, roots, ui);
    Result(verdict == Accepted, accused, roots, verdict)
  }

  /** JavaScript: only the roots that found somebody are witnesses, and finding anybody is success. */
  function Built(table: seq<Entry>, ui: Ui, roots: seq<string>): Result
  {
    var hits := Hits(table, ui, roots);
    Result(hits != [], Sort(Indices(hits)), Roots(hits), Check(table, Sort(Indices(hits)), Roots(hits), ui))
  }

  /** Every root finds a guardian, and the guardians ascend strictly in list order. */
  ghost predicate FoundAscending(table: seq<Entry>, ui: Ui, roots: seq<string>)
  {
    exists found: seq<nat> :: |found| == |roots| && StrictlyAscending(found)
      && forall i :: 0 <= i < |roots| ==> Finds(table, ui, roots[i], found[i])
  }

  /**
   Tracing succeeds exactly when there are roots, every root has the digest of a
   guardian, and those guardians ascend strictly in the order of the roots.
   */
  lemma TraceSucceedsIff(table: seq<Entry>, ui: Ui, roots: seq<string>)
    requires DistinctTable(table)
    ensures Traced(table, ui, roots).ok <==> roots != [] && FoundAscending(table, ui, roots)
  {
    var hits := Hits(table, ui, roots);
    HitsAreFound(table, ui, roots);
    CheckOfHits(table, ui, roots);
    if Traced(table, ui, roots).ok {
      assert |hits| == |roots|;
      forall i | 0 <= i < |roots| ensures Roots(hits)[i] == roots[i] {
        FullHits(table, ui, roots, i);
      }
      assert Roots(hits) == roots;
      var found := Indices(hits);
      forall i | 0 <= i < |roots| ensures Finds(table, ui, roots[i], found[i]) {
        assert Owns(table, hits[i].index, ui(hits[i].root));
      }
      assert StrictlyAscending(found);
    }
    if roots != [] && FoundAscending(table, ui, roots) {
      var found: seq<nat> :| |found| == |roots| && StrictlyAscending(found)
        && forall i :: 0 <= i < |roots| ==> Finds(table, ui, roots[i], found[i]);
      AscendingHits(table, ui, roots, found);
      assert |hits| == |roots|;
    }
  }

  /** The accused are exactly the guardians whose digest some root has; with either tracer. */
  lemma AccusedExactly(table: seq<Entry>, ui: Ui, roots: seq<string>, index: nat)
    requires DistinctTable(table)
    ensures index in Traced(table, ui, roots).accused <==> exists i :: 0 <= i < |roots| && Finds(table, ui, roots[i], index)
    ensures Built(table, ui, roots).accused == Traced(table, ui, roots).accused
    ensures Ascending(Traced(table, ui, roots).accused)
  {
    var hits := Hits(table, ui, roots);
    HitsAreFound(table, ui, roots);
    SortAscending(Indices(hits));
    if Seen(hits, index) {
      var i :| 0 <= i < |hits| && hits[i].index == index;
      assert Indices(hits)[i] == index;
    }
    if index in Indices(hits) {
      var i :| 0 <= i < |hits| && Indices(hits)[i] == index;
      assert hits[i].index == index;
    }
  }

  /** The JavaScript result is accepted by its own check exactly when somebody is accused and was found in ascending order. */
  lemma BuiltAcceptedIff(table: seq<Entry>, ui: Ui, roots: seq<string>)
    requires DistinctTable(table)
    ensures var r := Built(table, ui, roots);
            Check(table, r.accused, r.proof, ui) == Accepted
            <==> r.ok && StrictlyAscending(Indices(Hits(table, ui, roots)))
  {
    CheckOfHits(table, ui, roots);
  }

  // ----- the loops -----

  /** The nested loop over roots and entries, with the set of guardians already there. */
  method FindHits(table: seq<Entry>, ui: Ui, roots: seq<string>) returns (accused: seq<nat>, proof: seq<string>)
    ensures accused == Indices(Hits(table, ui, roots)) && proof == Roots(Hits(table, ui, roots))
  {
    ghost var hits: seq<Hit> := [];
    var seen: set<nat> := {};
    accused, proof := [], [];
    var r := 0;
    while r < |roots|
      invariant 0 <= r <= |roots| && hits == Hits(table, ui, roots[..r])
      invariant accused == Indices(hits) && proof == Roots(hits) && SeenSet(seen, hits)
    {
      var digest := ui(roots[r]);
      ghost var start := hits;
      var e := 0;
      while e < |table|
        invariant 0 <= e <= |table| && hits == HitsOfRoot(table, digest, roots[r], e, start)
        invariant accused == Indices(hits) && proof == Roots(hits) && SeenSet(seen, hits)
      {
        if table[e].digest == digest && table[e].index !in seen {
          SeenSetStep(seen, hits, Hit(table[e].index, roots[r]));
          seen := seen + {table[e].index};
          accused := accused + [table[e].index];
          proof := proof + [roots[r]];
          hits := hits + [Hit(table[e].index, roots[r])];
        }
        e := e + 1;
      }
      assert roots[..r + 1][..r] == roots[..r];
      r := r + 1;
    }
    assert roots[..r] == roots;
  }

  ghost predicate SeenSet(seen: set<nat>, hits: seq<Hit>)
  {
    forall index :: index in seen <==> Seen(hits, index)
  }

  lemma SeenSetStep(seen: set<nat>, hits: seq<Hit>, hit: Hit)
    requires SeenSet(seen, hits)
    ensures SeenSet(seen + {hit.index}, hits + [hit])
    ensures Indices(hits + [hit]) == Indices(hits) + [hit.index] && Roots(hits + [hit]) == Roots(hits) + [hit.root]
  {
    var more := hits + [hit];
    assert more[|hits|] == hit;
    forall index ensures index in seen + {hit.index} <==> Seen(more, index) {
      if index in seen {
        var i :| 0 <= i < |hits| && hits[i].index == index;
        assert more[i].index == index;
      }
      if i :| 0 <= i < |more| && more[i].index == index {
        if i < |hits| {
          assert hits[i].index == index;
        }
      }
    }
  }

  /** The check: a map from the table, then one accused guardian after the other. */
  method VerifyTrace(table: seq<Entry>, accused: seq<nat>, proof: seq<string>, ui: Ui) returns (verdict: Verdict)
    ensures verdict == Check(table, accused, proof, ui)
  {
    if |accused| != |proof| {
      return ArityMismatch;
    }
    if |accused| == 0 {
      return EmptyAccusedSet;
    }
    var keys: map<nat, string> := map[];
    var e := 0;
    while e < |table|
      invariant 0 <= e <= |table| && keys == TableMap(table[..e])
    {
      assert table[..e + 1][..e] == table[..e];
      keys := keys[table[e].index := table[e].digest];
      e := e + 1;
    }
    assert table[..e] == table;
    var seen: set<nat> := {};
    var i := 0;
    while i < |accused|
      invariant 0 <= i <= |accused| && (forall x :: x in seen <==> x in accused[..i])
      invariant CheckFrom(keys, accused, proof, ui, i) == CheckFrom(keys, accused, proof, ui, 0)
    {
      var index := accused[i];
      if index in seen {
        return DuplicateIndex;
      }
      seen := seen + {index};
      if index !in keys {
        return MissingIndex;
      }
      if ui(proof[i]) != keys[index] {
        return DigestMismatch;
      }
      i := i + 1;
    }
    verdict := Accepted;
  }

  method BuildTraceResult(table: seq<Entry>, ui: Ui, roots: seq<string>) returns (r: Result)
    ensures r == Built(table, ui, roots)
  {
    var accused, proof := FindHits(table, ui, roots);
    assert accused == [] <==> Hits(table, ui, roots) == [];
    var sorted := Sort(accused);
    var verdict := VerifyTrace(table, sorted, proof, ui);
    r := Result(accused != [], sorted, proof, verdict);
  }

  // ----- on key entries and texts -----

  function TableOf(entries: seq<KeyEntry>): Outcome<seq<Entry>>
  {
    if entries == [] then Ok([]) else
      var before :- TableOf(entries[..|entries| - 1]);
      var last := entries[|entries| - 1];
      var digest :- NormalizeDigest(last.uiHex);
      Ok(before + [Entry(last.guardianIndex, Lower(digest))])
  }

  function NormalizedRoots(roots: seq<string>): Outcome<seq<string>>
  {
    if roots == [] then Ok([]) else
      var before :- NormalizedRoots(roots[..|roots| - 1]);
      var last :- NormalizeField(roots[|roots| - 1]);
      Ok(before + [last])
  }

  /** The lower-case digest of a root that is already normalised. */
  function UiText(h: TextHash, root: string): string
  {
    match ComputeUi(h, root)
    case Ok(ui) => Lower(ui)
    case Throw(_) => ""
  }

  datatype TraceOutcome = NoExtractedRoots | TraceDone(result: Result)

  function TraceFromRoots(h: TextHash, entries: seq<KeyEntry>, idHash: string, roots: seq<string>): Outcome<TraceOutcome>
  {
    var _ :- NormalizeDigest(idHash);
    if roots == [] then Ok(NoExtractedRoots) else
      var norm :- NormalizedRoots(roots);
      var table :- TableOf(entries);
      Ok(TraceDone(Traced(table, root => UiText(h, root), norm)))
  }

  method TraceFromExtractedRoots(h: TextHash, entries: seq<KeyEntry>, idHash: string, roots: seq<string>)
    returns (r: Outcome<TraceOutcome>)
    ensures r == TraceFromRoots(h, entries, idHash, roots)
  {
    hide NormalizeDigest, NormalizeField, UiText, Lower;
    var id := NormalizeDigest(idHash);
    if id.Throw? {
      return Throw(id.error);
    }
    if |roots| == 0 {
      return Ok(NoExtractedRoots);
    }
    var norm: seq<string> := [];
    var i := 0;
    while i < |roots|
      invariant 0 <= i <= |roots| && NormalizedRoots(roots[..i]) == Ok(norm)
    {
      assert roots[..i + 1][..i] == roots[..i];
      var root := NormalizeField(roots[i]);
      if root.Throw? {
        RootsThrow(roots, i + 1, root.error);
        return Throw(root.error);
      }
      norm := norm + [root.value];
      i := i + 1;
    }
    assert roots[..i] == roots;
    var table: seq<Entry> := [];
    i := 0;
    while i < |entries|
      invariant 0 <= i <= |entries| && TableOf(entries[..i]) == Ok(table)
    {
      assert entries[..i + 1][..i] == entries[..i];
      var digest := NormalizeDigest(entries[i].uiHex);
      if digest.Throw? {
        TableThrows(entries, i + 1, digest.error);
        return Throw(digest.error);
      }
      table := table + [Entry(entries[i].guardianIndex, Lower(digest.value))];
      i := i + 1;
    }
    assert entries[..i] == entries;
    var ui := root => UiText(h, root);
    var accused, proof := FindHits(table, ui, norm);
    accused := Sort(accused);
    var verdict := VerifyTrace(table, accused, norm, ui);
    r := Ok(TraceDone(Result(verdict == Accepted, accused, norm, verdict)));
  }

  lemma {:induction false} RootsThrow(roots: seq<string>, k: nat, error: string)
    requires 0 < k <= |roots| && NormalizedRoots(roots[..k]) == Throw(error)
    ensures NormalizedRoots(roots) == Throw(error)
  {
    hide NormalizeField;
    if k < |roots| {
      var before := roots[..|roots| - 1];
      assert before[..k] == roots[..k];
      RootsThrow(before, k, error);
    } else {
      assert roots[..k] == roots;
    }
  }

  lemma {:induction false} TableThrows(entries: seq<KeyEntry>, k: nat, error: string)
    requires 0 < k <= |entries| && TableOf(entries[..k]) == Throw(error)
    ensures TableOf(entries) == Throw(error)
  {
    hide NormalizeDigest, Lower;
    if k < |entries| {
      var before := entries[..|entries| - 1];
      assert before[..k] == entries[..k];
      TableThrows(before, k, error);
    } else {
      assert entries[..k] == entries;
    }
  }

  /** The same equivalence on key entries and root texts, whatever their spelling. */
  lemma TraceOfTextsSucceedsIff(h: TextHash, entries: seq<KeyEntry>, idHash: string, roots: seq<string>)
    requires TraceFromRoots(h, entries, idHash, roots).Ok? && roots != []
    requires DistinctTable(TableOf(entries).value)
    ensures var r, table, norm := TraceFromRoots(h, entries, idHash, roots).value, TableOf(entries).value, NormalizedRoots(roots).value;
            && r.TraceDone?
            && (r.result.ok <==> FoundAscending(table, root => UiText(h, root), norm))
  {
    hide NormalizeDigest, NormalizeField, UiText, Traced, NormalizedRoots, TableOf;
    SameLength(roots);
    TraceSucceedsIff(TableOf(entries).value, root => UiText(h, root), NormalizedRoots(roots).value);
  }

  lemma {:induction false} SameLength(roots: seq<string>)
    requires NormalizedRoots(roots).Ok?
    ensures |NormalizedRoots(roots).value| == |roots|
  {
    hide NormalizeField;
    if roots != [] {
      SameLength(roots[..|roots| - 1]);
    }
  }
}
