/**
 The hash of the key set: it does not depend on the order of the entries, and it
 binds them.
 */
module KeySet {
  import opened Outcomes
  import opened Hex
  import opened Envelope
  import opened Attestation
  import opened Sharing

  // ----- the order of texts -----

  lemma {:induction false} LeqTotal(a: string, b: string)
    ensures StringLeq(a, b) || StringLeq(b, a)
  {
    if a != "" && b != "" && a[0] == b[0] {
      LeqTotal(a[1..], b[1..]);
    }
  }

  lemma {:induction false} LeqAntisymmetric(a: string, b: string)
    requires StringLeq(a, b) && StringLeq(b, a)
    ensures a == b
  {
    if a != "" && b != "" {
      LeqAntisymmetric(a[1..], b[1..]);
      assert a == [a[0]] + a[1..] && b == [b[0]] + b[1..];
    }
  }

  lemma {:induction false} LeqTransitive(a: string, b: string, c: string)
    requires StringLeq(a, b) && StringLeq(b, c)
    ensures StringLeq(a, c)
  {
    if a != "" && a[0] == b[0] == c[0] {
      LeqTransitive(a[1..], b[1..], c[1..]);
    }
  }

  // ----- sorting -----

  predicate Sorted(parts: seq<string>)
  {
    forall i, j :: 0 <= i < j < |parts| ==> StringLeq(parts[i], parts[j])
  }

  /** The head stays before everything else. */
  lemma HeadFirst(s: string, sorted: seq<string>, tail: seq<string>)
    requires sorted != [] && Sorted(sorted) && StringLeq(sorted[0], s)
    requires multiset(tail) == multiset{s} + multiset(sorted[1..])
    ensures forall j :: 0 <= j < |tail| ==> StringLeq(sorted[0], tail[j])
  {
    hide StringLeq;
    forall j | 0 <= j < |tail| ensures StringLeq(sorted[0], tail[j]) {
      assert tail[j] in multiset(tail);
      assert tail[j] == s || tail[j] in sorted[1..];
    }
  }

  lemma {:induction false} InsertKeeps(s: string, sorted: seq<string>)
    requires Sorted(sorted)
    ensures Sorted(InsertSorted(s, sorted)) && multiset(InsertSorted(s, sorted)) == multiset{s} + multiset(sorted)
  {
    hide StringLeq;
    var r := InsertSorted(s, sorted);
    if sorted != [] {
      assert sorted == [sorted[0]] + sorted[1..];
      if StringLeq(s, sorted[0]) {
        forall j | 0 <= j < |sorted| ensures StringLeq(s, sorted[j]) {
          if j > 0 {
            LeqTransitive(s, sorted[0], sorted[j]);
          }
        }
      } else {
        LeqTotal(s, sorted[0]);
        InsertKeeps(s, sorted[1..]);
        HeadFirst(s, sorted, InsertSorted(s, sorted[1..]));
      }
    }
  }

  /** Sorting orders the texts and keeps them. */
  lemma {:induction false} SortKeeps(parts: seq<string>)
    ensures Sorted(SortStrings(parts)) && multiset(SortStrings(parts)) == multiset(parts)
  {
    hide StringLeq;
    if parts != [] {
      SortKeeps(parts[1..]);
      InsertKeeps(parts[0], SortStrings(parts[1..]));
      assert parts == [parts[0]] + parts[1..];
    }
  }

  lemma Without<T>(s: seq<T>, j: nat)
    requires j < |s|
    ensures multiset(s) == multiset{s[j]} + multiset(s[..j] + s[j + 1..])
  {
    assert s == s[..j] + [s[j]] + s[j + 1..];
  }

  lemma FirstOut<T>(s: seq<T>)
    requires s != []
    ensures multiset(s) == multiset{s[0]} + multiset(s[1..])
  {
    assert s == [s[0]] + s[1..];
  }

  lemma CancelOne<T>(x: T, m: multiset<T>, n: multiset<T>)
    requires multiset{x} + m == multiset{x} + n
    ensures m == n
  {
    assert m == (multiset{x} + m) - multiset{x} && n == (multiset{x} + n) - multiset{x};
  }

  lemma HasAll<T>(a: seq<T>, b: seq<T>, x: T)
    requires multiset(a) == multiset(b) && x in a
    ensures x in b
  {
    assert x in multiset(b);
  }

  /** The place of the first element of `a` in a rearrangement `b`, without which the rests agree. */
  lemma Found<T>(a: seq<T>, b: seq<T>) returns (j: nat)
    requires a != [] && multiset(a) == multiset(b)
    ensures j < |b| && b[j] == a[0] && multiset(a[1..]) == multiset(b[..j] + b[j + 1..])
  {
    HasAll(a, b, a[0]);
    j :| 0 <= j < |b| && b[j] == a[0];
    FirstOut(a);
    Without(b, j);
    CancelOne(a[0], multiset(a[1..]), multiset(b[..j] + b[j + 1..]));
  }

  lemma SameHead(a: seq<string>, b: seq<string>)
    requires Sorted(a) && Sorted(b) && multiset(a) == multiset(b) && a != [] && b != []
    ensures a[0] == b[0]
  {
    hide StringLeq;
    HasAll(a, b, a[0]);
    HasAll(b, a, b[0]);
    if a[0] != b[0] {
      LeqAntisymmetric(a[0], b[0]);
    }
  }

  lemma TailsAgree<T>(a: seq<T>, b: seq<T>)
    requires a != [] && b != [] && a[0] == b[0] && multiset(a) == multiset(b)
    ensures multiset(a[1..]) == multiset(b[1..])
  {
    FirstOut(a);
    FirstOut(b);
    CancelOne(a[0], multiset(a[1..]), multiset(b[1..]));
  }

  lemma SortedTail(a: seq<string>)
    requires Sorted(a) && a != []
    ensures Sorted(a[1..])
  {
    hide StringLeq;
  }

  lemma {:induction false} SortedUnique(a: seq<string>, b: seq<string>)
    requires Sorted(a) && Sorted(b) && multiset(a) == multiset(b)
    ensures a == b
  {
    hide Sorted;
    assert |multiset(a)| == |multiset(b)|;
    if a != [] {
      SameHead(a, b);
      TailsAgree(a, b);
      SortedTail(a);
      SortedTail(b);
      SortedUnique(a[1..], b[1..]);
      assert a == [a[0]] + a[1..] && b == [b[0]] + b[1..];
    }
  }

  // ----- the texts of the entries -----

  /** Number and normalised binding. */
  function EntryText(e: KeyEntry): string
  {
    var ui := NormalizeDigest(e.uiHex);
    Decimal(e.guardianIndex) + ":" + (if ui.Ok? then ui.value else "")
  }

  function EntryTexts(entries: seq<KeyEntry>): (texts: seq<string>)
    ensures |texts| == |entries|
  {
    seq(|entries|, i requires 0 <= i < |entries| => EntryText(entries[i]))
  }

  predicate GoodEntries(entries: seq<KeyEntry>)
  {
    forall e :: e in entries ==> NormalizeDigest(e.uiHex).Ok?
  }

  lemma {:induction false} CanonEntriesAre(entries: seq<KeyEntry>)
    ensures CanonEntries(entries).Ok? <==> GoodEntries(entries)
    ensures GoodEntries(entries) ==> CanonEntries(entries) == Ok(EntryTexts(entries))
  {
    hide NormalizeDigest, Decimal;
    if entries != [] {
      CanonEntriesAre(entries[1..]);
      assert entries == [entries[0]] + entries[1..];
      assert EntryTexts(entries) == [EntryText(entries[0])] + EntryTexts(entries[1..]);
    }
  }

  lemma TextsWithout(entries: seq<KeyEntry>, j: nat)
    requires j < |entries|
    ensures multiset(EntryTexts(entries)) == multiset{EntryText(entries[j])} + multiset(EntryTexts(entries[..j] + entries[j + 1..]))
  {
    hide EntryText;
    var texts := EntryTexts(entries);
    Without(texts, j);
    assert EntryTexts(entries[..j] + entries[j + 1..]) == texts[..j] + texts[j + 1..];
  }

  lemma {:induction false} SameTexts(a: seq<KeyEntry>, b: seq<KeyEntry>)
    requires multiset(a) == multiset(b)
    ensures multiset(EntryTexts(a)) == multiset(EntryTexts(b))
  {
    hide EntryText;
    if a == [] {
      assert |multiset(b)| == 0;
    } else {
      var j := Found(a, b);
      assert a[..0] + a[1..] == a[1..];
      SameTexts(a[1..], b[..j] + b[j + 1..]);
      TextsWithout(a, 0);
      TextsWithout(b, j);
    }
  }

  /** The set hash looks at the entries as a collection. */
  lemma SetHashIgnoresOrder(h: TextHash, a: seq<KeyEntry>, b: seq<KeyEntry>)
    requires multiset(a) == multiset(b) && GoodEntries(a)
    ensures VkSetHash(h, a).Ok? && VkSetHash(h, b) == VkSetHash(h, a)
  {
    hide StringLeq, NormalizeDigest, EntryTexts, HashJoined;
    forall e | e in b ensures e in a {
      assert e in multiset(b);
    }
    CanonEntriesAre(a);
    CanonEntriesAre(b);
    SameTexts(a, b);
    SortKeeps(EntryTexts(a));
    SortKeeps(EntryTexts(b));
    SortedUnique(SortStrings(EntryTexts(a)), SortStrings(EntryTexts(b)));
  }

  // ----- binding -----

  predicate AllNoBar(parts: seq<string>)
  {
    forall i :: 0 <= i < |parts| ==> NoBar(parts[i])
  }

  lemma BarIffMore(a: seq<string>)
    requires a != [] && AllNoBar(a)
    ensures NoBar(Join(a, "|")) <==> |a| == 1
  {
    if |a| > 1 {
      assert Join(a, "|")[|a[0]|] == '|';
    }
  }

  /** Lists without the separator inside have joined texts of their own, whatever their lengths. */
  lemma {:induction false} JoinBinds(a: seq<string>, b: seq<string>)
    requires a != [] && b != [] && AllNoBar(a) && AllNoBar(b) && Join(a, "|") == Join(b, "|")
    ensures a == b
  {
    BarIffMore(a);
    BarIffMore(b);
    if |a| > 1 {
      SplitAtBar(a[0], Join(a[1..], "|"), b[0], Join(b[1..], "|"));
      JoinBinds(a[1..], b[1..]);
      assert a == [a[0]] + a[1..] && b == [b[0]] + b[1..];
    }
  }

  lemma EntryHasNoBar(e: KeyEntry)
    requires NormalizeDigest(e.uiHex).Ok?
    ensures NoBar(EntryText(e))
  {
    hide Decimal, NormalizeDigest;
    DecimalHasNoBar(e.guardianIndex);
    DigestHasNoBar(e.uiHex);
  }

  lemma EntryBinds(e: KeyEntry, f: KeyEntry)
    requires NormalizeDigest(e.uiHex).Ok? && NormalizeDigest(f.uiHex).Ok? && EntryText(e) == EntryText(f)
    ensures e.guardianIndex == f.guardianIndex && NormalizeDigest(e.uiHex) == NormalizeDigest(f.uiHex)
  {
    hide Decimal, NormalizeDigest;
    var m, n := Decimal(e.guardianIndex), Decimal(f.guardianIndex);
    var s := EntryText(e);
    assert s[|m|] == ':' && s[|n|] == ':';
    assert forall i :: 0 <= i < |m| ==> s[i] == m[i];
    assert forall i :: 0 <= i < |n| ==> s[i] == n[i];
    assert m == s[..|m|] && n == s[..|n|];
    assert NormalizeDigest(e.uiHex).value == s[|m| + 1..] && NormalizeDigest(f.uiHex).value == s[|n| + 1..];
    DecimalInjective(e.guardianIndex, f.guardianIndex);
  }

  /** The hash takes one value on two different joined lists. */
  predicate SetCollision(h: TextHash, a: seq<KeyEntry>, b: seq<KeyEntry>)
  {
    var s, t := Join(SortStrings(EntryTexts(a)), "|"), Join(SortStrings(EntryTexts(b)), "|");
    s != t && h(s) == h(t)
  }

  lemma SetTextsBind(a: seq<KeyEntry>, b: seq<KeyEntry>)
    requires a != [] && b != [] && GoodEntries(a) && GoodEntries(b)
    requires Join(SortStrings(EntryTexts(a)), "|") == Join(SortStrings(EntryTexts(b)), "|")
    ensures multiset(EntryTexts(a)) == multiset(EntryTexts(b))
  {
    hide StringLeq, NormalizeDigest, EntryText, Join, NoBar;
    SortedNoBar(a);
    SortedNoBar(b);
    SortKeeps(EntryTexts(a));
    SortKeeps(EntryTexts(b));
    JoinBinds(SortStrings(EntryTexts(a)), SortStrings(EntryTexts(b)));
  }

  lemma SortedNoBar(a: seq<KeyEntry>)
    requires a != [] && GoodEntries(a)
    ensures SortStrings(EntryTexts(a)) != [] && AllNoBar(SortStrings(EntryTexts(a)))
  {
    hide StringLeq, NormalizeDigest, EntryText, NoBar;
    var texts := EntryTexts(a);
    var r := SortStrings(texts);
    SortKeeps(texts);
    assert texts[0] in multiset(r);
    forall i | 0 <= i < |r| ensures NoBar(r[i]) {
      assert r[i] in multiset(texts);
      var j :| 0 <= j < |texts| && texts[j] == r[i];
      EntryHasNoBar(a[j]);
    }
  }

  /** The set hash binds: two sets with one hash have the same guardians with the same bindings, or exhibit a collision. */
  lemma SetHashBinds(h: TextHash, a: seq<KeyEntry>, b: seq<KeyEntry>)
    requires a != [] && b != [] && VkSetHash(h, a).Ok? && VkSetHash(h, a) == VkSetHash(h, b)
    ensures SetCollision(h, a, b)
         || (|a| == |b| && forall e :: e in a ==> exists f :: f in b && f.guardianIndex == e.guardianIndex
                                                       && NormalizeDigest(f.uiHex) == NormalizeDigest(e.uiHex))
  {
    hide StringLeq, NormalizeDigest, EntryText, Join, Lower, HexOf;
    CanonEntriesAre(a);
    CanonEntriesAre(b);
    var s, t := Join(SortStrings(EntryTexts(a)), "|"), Join(SortStrings(EntryTexts(b)), "|");
    HexOfBinds(h(s), h(t));
    if s == t {
      SetTextsBind(a, b);
      assert |multiset(EntryTexts(a))| == |multiset(EntryTexts(b))|;
      forall e | e in a
        ensures exists f :: f in b && f.guardianIndex == e.guardianIndex && NormalizeDigest(f.uiHex) == NormalizeDigest(e.uiHex)
      {
        var i :| 0 <= i < |a| && a[i] == e;
        assert EntryTexts(a)[i] in multiset(EntryTexts(b));
        var j :| 0 <= j < |b| && EntryTexts(b)[j] == EntryTexts(a)[i];
        EntryBinds(e, b[j]);
      }
    }
  }
}
