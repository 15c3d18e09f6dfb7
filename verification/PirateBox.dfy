/**
 The second recovery implementation. It works on unbounded integers, does not
 check attestations, skips repeated points instead of refusing them, and throws
 where the first one returns an error.
 */
module PirateBox {
  import opened Outcomes
  import opened NumberTheory
  import opened ShareField
  import opened Polynomials
  import opened Interpolation
  import opened Hex
  import opened Packing
  import opened FieldText
  import opened Envelope
  import opened Recovery
  import Sharing
  import NitsShamir

  // ----- arithmetic on unbounded integers -----

  /** JavaScript's remainder takes the sign of the dividend. */
  function Rem(x: int, m: nat): int
    requires m > 0
  {
    if x >= 0 then x % m else -((-x) % m)
  }

  /** Normalisation repairs the sign, so it is the mathematical residue. */
  function FieldNormalize(x: int): (r: Felt)
    ensures Cong(r, x)
  {
    var y := Rem(x, FIELD_MOD);
    if y < 0 then y + FIELD_MOD else y
  }

  /** The first operand may be an unreduced 17-bit value. */
  function BigMul(a: nat, b: Felt): (r: Felt)
    ensures Cong(r, a * b)
  {
    assert a * b >= 0 by { MulMono(0, a, b); }
    RemOfNat(a * b);
    Rem(a * b, FIELD_MOD)
  }

  lemma RemOfNat(x: int)
    requires x >= 0
    ensures 0 <= Rem(x, FIELD_MOD) < FIELD_MOD && Cong(Rem(x, FIELD_MOD), x)
  {
  }

  function BigSub(a: Felt, b: Felt): (r: Felt)
    ensures Cong(r, a - b)
  {
    Rem(a - b + FIELD_MOD, FIELD_MOD)
  }

  function BigAdd(a: Felt, b: Felt): (r: Felt)
    ensures Cong(r, a + b)
  {
    Rem(a + b, FIELD_MOD)
  }

  method BigPow(base: int, exp: nat) returns (out: Felt)
    ensures out == Power(FieldNormalize(base), exp) % FIELD_MOD
  {
    var b: Felt, e: nat := FieldNormalize(base), exp;
    out := 1;
    while e > 0
      invariant Cong(out * Power(b, e), Power(FieldNormalize(base), exp))
    {
      ghost var before := out * Power(b, e);
      SquareAndMultiply(out, b, e, BigMul(out, b), BigMul(b, b));
      if e % 2 == 1 {
        out := BigMul(out, b);
      }
      b := BigMul(b, b);
      e := e / 2;
      CongTrans(out * Power(b, e), before, Power(FieldNormalize(base), exp));
    }
    assert out * Power(b, e) == out;
  }

  method BigInv(x: int) returns (r: Outcome<Felt>)
    ensures FieldNormalize(x) == 0 <==> r == Throw("inverse_of_zero")
    ensures FieldNormalize(x) != 0 ==> r == Ok(Inverse(FieldNormalize(x)))
  {
    if FieldNormalize(x) == 0 {
      return Throw("inverse_of_zero");
    }
    var y := BigPow(FieldNormalize(x), FIELD_MOD - 2);
    NormalizeTwice(x);
    r := Ok(y);
  }

  lemma NormalizeTwice(x: int)
    ensures FieldNormalize(FieldNormalize(x)) == FieldNormalize(x)
  {
  }

  method BigBasis(xs: seq<Felt>, i: nat) returns (num: Felt, den: Felt)
    requires i < |xs|
    ensures Cong(num, RootProduct(Others(xs, i), 0))
    ensures Cong(den, Denominator(xs, i))
  {
    num, den := 1, 1;
    for j := 0 to |xs|
      invariant Cong(num, RootProduct(OthersBefore(xs, i, j), 0))
      invariant Cong(den, RootProduct(OthersBefore(xs, i, j), xs[i]))
    {
      if j != i {
        var negXj, diff := BigSub(0, xs[j]), BigSub(xs[i], xs[j]);
        var num', den' := BigMul(num, negXj), BigMul(den, diff);
        BasisTurn(xs, i, j, 0, num, negXj, num');
        BasisTurn(xs, i, j, xs[i], den, diff, den');
        num, den := num', den';
      } else {
        assert OthersBefore(xs, i, j + 1) == OthersBefore(xs, i, j);
      }
    }
    assert OthersBefore(xs, i, |xs|) == Others(xs, i);
  }

  /** The same interpolation as `Interpolation.LagrangeInterpolateAtZero`; values may exceed the field. */
  method LagrangeAtZero(xs: seq<Felt>, ys: seq<U32>) returns (r: Outcome<Felt>)
    requires |xs| == |ys| > 0
    ensures r == AtZero(xs, ys)
  {
    var secret: Felt := 0;
    for i := 0 to |xs|
      invariant Cong(secret, LagrangeSum(xs, ys, 0, i))
      invariant forall k :: 0 <= k < i ==> !Cong(Denominator(xs, k), 0)
    {
      var num, den := BigBasis(xs, i);
      InverseCong(den, Denominator(xs, i));
      NormalizeFelt(den);
      var inv := BigInv(den);
      if inv.Throw? {
        return Throw(inv.error);
      }
      var li0 := BigMul(num, inv.value);
      var term := BigMul(ys[i], li0);
      TermTurn(secret, LagrangeSum(xs, ys, 0, i), ys[i], num, RootProduct(Others(xs, i), 0), inv.value,
               li0, term, BigAdd(secret, term));
      secret := BigAdd(secret, term);
    }
    InverseCong(secret, LagrangeSum(xs, ys, 0, |xs|));
    r := Ok(secret);
  }

  lemma NormalizeFelt(x: Felt)
    ensures FieldNormalize(x) == x
  {
  }

  // ----- reconstruction -----

  /** Header comparison: the identity hash without regard to case. */
  predicate SameHeader(env: ShareEnvelope, first: ShareEnvelope)
  {
    && Lower(env.idHash) == Lower(first.idHash) && env.ver == first.ver && env.epoch == first.epoch
    && env.n == first.n && env.t == first.t && env.secretType == first.secretType
  }

  function CollectDistinct(rd: Reader, first: ShareEnvelope, shares: seq<ShareEnvelope>, points: seq<Point>): Outcome<seq<Point>>
  {
    if shares == [] then Ok(points) else
      var env := shares[0];
      if env.scheme != SCHEME then Throw("scheme_mismatch")
      else if !SameHeader(env, first) then Throw("share_header_mismatch")
      else if !env.active then Throw("inactive_share_present")
      else
        var x :- rd.x(env.xiHex);
        if HasX(points, x) then CollectDistinct(rd, first, shares[1..], points)
        else
          var ys :- rd.ys(env.yiHex);
          if |points| + 1 == first.t then Ok(points + [Point(x, ys)])
          else CollectDistinct(rd, first, shares[1..], points + [Point(x, ys)])
  }

  lemma {:induction false} CollectDistinctFull(rd: Reader, first: ShareEnvelope, shares: seq<ShareEnvelope>, points: seq<Point>)
    requires ReadsFull(rd) && Full(points)
    ensures var g := CollectDistinct(rd, first, shares, points); g.Ok? ==> Full(g.value)
    decreases |shares|
  {
    if shares != [] && CollectDistinct(rd, first, shares, points).Ok? {
      var env := shares[0];
      var x := rd.x(env.xiHex).value;
      if HasX(points, x) {
        CollectDistinctFull(rd, first, shares[1..], points);
      } else if |points| + 1 != first.t {
        CollectDistinctFull(rd, first, shares[1..], points + [Point(x, rd.ys(env.yiHex).value)]);
      }
    }
  }

  function Reconstruct(rd: Reader, shares: seq<ShareEnvelope>): Outcome<string>
    requires ReadsFull(rd)
  {
    if shares == [] then Throw("no_shares") else
      var points :- CollectDistinct(rd, shares[0], shares, []);
      CollectDistinctFull(rd, shares[0], shares, []);
      var result :- Finish(points, shares[0].t);
      match result
      case Recovered(seed, _) => Ok(seed)
      case Rejected(NotEnoughDistinctPoints) => Throw("not_enough_distinct_points")
      case Rejected(_) => Throw("recovered_chunk_out_of_range")
  }

  // ----- what a reconstruction has accepted -----

  /** The x-coordinates that the shares name. */
  function NamedXs(rd: Reader, shares: seq<ShareEnvelope>): set<Felt>
  {
    set i | 0 <= i < |shares| && rd.x(shares[i].xiHex).Ok? :: rd.x(shares[i].xiHex).value
  }

  /** The loop gets as far as share `i`: those before it name fewer than `t` points. A `t` of 0 stops nothing. */
  predicate Reached(rd: Reader, shares: seq<ShareEnvelope>, i: nat)
    requires i < |shares|
  {
    shares[0].t == 0 || |NamedXs(rd, shares[..i])| < shares[0].t
  }

  function PointSet(points: seq<Point>): set<Felt>
  {
    set k | 0 <= k < |points| :: points[k].x
  }

  lemma NamedFirst(rd: Reader, shares: seq<ShareEnvelope>, i: nat)
    requires 0 < i <= |shares| && rd.x(shares[0].xiHex).Ok?
    ensures NamedXs(rd, shares[..i]) == {rd.x(shares[0].xiHex).value} + NamedXs(rd, shares[1..][..i - 1])
  {
    var all, rest := shares[..i], shares[1..][..i - 1];
    assert all == [shares[0]] + rest;
    assert all[0] == shares[0];
    forall k | 0 <= k < |rest| && rd.x(rest[k].xiHex).Ok? ensures rd.x(rest[k].xiHex).value in NamedXs(rd, all) {
      assert all[k + 1] == rest[k];
    }
  }

  lemma PointSetSnoc(points: seq<Point>, p: Point)
    ensures PointSet(points + [p]) == PointSet(points) + {p.x}
    ensures HasX(points, p.x) <==> p.x in PointSet(points)
  {
    var all := points + [p];
    assert all[|points|] == p;
    forall k | 0 <= k < |points| ensures points[k].x in PointSet(all) {
      assert all[k] == points[k];
    }
  }

  /** What the loop asks of a share, field by field. */
  predicate Conforms(rd: Reader, first: ShareEnvelope, env: ShareEnvelope)
  {
    && env.scheme == SCHEME && env.ver == first.ver && env.epoch == first.epoch && env.n == first.n && env.t == first.t
    && env.secretType == first.secretType && Lower(env.idHash) == Lower(first.idHash) && env.active
    && rd.x(env.xiHex).Ok?
  }

  lemma {:induction false} CollectedAccepted(rd: Reader, first: ShareEnvelope, shares: seq<ShareEnvelope>, points: seq<Point>, i: nat)
    requires CollectDistinct(rd, first, shares, points).Ok? && i < |shares| && |PointSet(points)| == |points|
    requires first.t == 0 || |PointSet(points) + NamedXs(rd, shares[..i])| < first.t
    ensures Conforms(rd, first, shares[i])
    decreases |shares|
  {
    hide NamedXs, PointSet, HasX, Lower;
    if i > 0 {
      var x := rd.x(shares[0].xiHex).value;
      NamedFirst(rd, shares, i);
      var named := NamedXs(rd, shares[1..][..i - 1]);
      var set0 := PointSet(points);
      if HasX(points, x) {
        PointSetSnoc(points, Point(x, []));
        assert set0 + named == set0 + ({x} + named);
        CollectedAccepted(rd, first, shares[1..], points, i - 1);
      } else {
        var p := Point(x, rd.ys(shares[0].yiHex).value);
        PointSetSnoc(points, p);
        assert set0 + {x} + named == set0 + ({x} + named);
        SubsetSize(set0 + {x}, set0 + {x} + named);
        CollectedAccepted(rd, first, shares[1..], points + [p], i - 1);
      }
    }
  }

  lemma SubsetSize(a: set<Felt>, b: set<Felt>)
    requires a <= b
    ensures |a| <= |b|
  {
    assert b == a + (b - a);
  }

  /** The seed comes from shares of one header: every share the loop reached has it, and is active. */
  lemma ReconstructedMeansAccepted(rd: Reader, shares: seq<ShareEnvelope>, i: nat)
    requires ReadsFull(rd) && Reconstruct(rd, shares).Ok? && i < |shares| && Reached(rd, shares, i)
    ensures Conforms(rd, shares[0], shares[i])
  {
    assert PointSet([]) == {};
    assert {} + NamedXs(rd, shares[..i]) == NamedXs(rd, shares[..i]);
    CollectedAccepted(rd, shares[0], shares, [], i);
  }

  /** A list that mixes versions or epochs before the `t`-th point is never reconstructed. */
  lemma MixedVersionsThrow(rd: Reader, shares: seq<ShareEnvelope>, i: nat)
    requires ReadsFull(rd) && i < |shares| && Reached(rd, shares, i)
    requires shares[i].ver != shares[0].ver || shares[i].epoch != shares[0].epoch
    ensures Reconstruct(rd, shares).Throw?
  {
    if Reconstruct(rd, shares).Ok? {
      ReconstructedMeansAccepted(rd, shares, i);
    }
  }

  // ----- repeated shares are tolerated -----

  function SetOf<T>(s: seq<T>): set<T>
  {
    set x | x in s
  }

  lemma SetOfCons<T>(s: seq<T>)
    requires s != []
    ensures SetOf(s) == {s[0]} + SetOf(s[1..])
  {
    assert s == [s[0]] + s[1..];
  }

  /**
   From a list of shares of the same polynomials, with repeats, collection ends
   with `t` different points as soon as the list names `t` different points.
   */
  lemma {:induction false} CollectDistinctIssued(rd: Reader, first: ShareEnvelope, shares: seq<ShareEnvelope>,
                                                 rows: seq<seq<nat>>, xs: seq<Felt>, zs: seq<Felt>)
    returns (final: seq<Felt>)
    requires Sharing.Rows(rows) && |shares| == |xs| && |zs| < first.t && DistinctNats(zs)
    requires first.scheme == SCHEME
    requires forall i :: 0 <= i < |shares| ==> IsShareAt(rd, shares[i], HeaderOf(first), rows, xs[i])
    ensures DistinctNats(final) && |final| <= first.t
    ensures |final| < first.t ==> SetOf(final) == SetOf(zs) + SetOf(xs)
    ensures CollectDistinct(rd, first, shares, PointsAt(rows, zs)) == Ok(PointsAt(rows, final))
    decreases |shares|
  {
    var points := PointsAt(rows, zs);
    if shares == [] {
      final := zs;
    } else {
      var x := xs[0];
      assert IsShareAt(rd, shares[0], HeaderOf(first), rows, x);
      forall i | 0 <= i < |shares[1..]| ensures IsShareAt(rd, shares[1..][i], HeaderOf(first), rows, xs[1..][i]) {
        assert shares[1..][i] == shares[i + 1] && xs[1..][i] == xs[i + 1];
      }
      assert HasX(points, x) <==> x in zs by {
        assert forall i :: 0 <= i < |zs| ==> points[i].x == zs[i];
      }
      assert points + [Point(x, Sharing.Values(rows, x))] == PointsAt(rows, zs + [x]);
      assert SetOf(xs) == {x} + SetOf(xs[1..]) by {
        assert xs == [x] + xs[1..];
      }
      if x in zs {
        final := CollectDistinctIssued(rd, first, shares[1..], rows, xs[1..], zs);
      } else if |zs| + 1 == first.t {
        final := zs + [x];
      } else {
        final := CollectDistinctIssued(rd, first, shares[1..], rows, xs[1..], zs + [x]);
        assert SetOf(zs + [x]) == SetOf(zs) + {x};
      }
    }
  }

  lemma {:induction false} SetOfSize<T>(s: seq<T>)
    ensures |SetOf(s)| <= |s|
  {
    if s != [] {
      SetOfSize(s[1..]);
      SetOfCons(s);
    }
  }

  lemma ReconstructIssued(rd: Reader, shares: seq<ShareEnvelope>, rows: seq<seq<nat>>, xs: seq<Felt>, t: U32)
    requires ReadsFull(rd) && ThresholdRows(rows, t) && |shares| == |xs| && shares != []
    requires shares[0].t == t && shares[0].scheme == SCHEME
    requires forall i :: 0 <= i < |shares| ==> IsShareAt(rd, shares[i], HeaderOf(shares[0]), rows, xs[i])
    requires |SetOf(xs)| >= t
    ensures AllBelow(Constants(rows), 65536)
    ensures Reconstruct(rd, shares) == Ok(JoinSeed(Constants(rows)).value)
  {
    var final := CollectDistinctIssued(rd, shares[0], shares, rows, xs, []);
    assert PointsAt(rows, []) == [];
    SetOfSize(final);
    assert SetOf([]) + SetOf(xs) == SetOf(xs);
    assert |final| == t;
    FinishRecovers(rows, final, t);
  }

  /**
   Second recovery agrees: any list of issued envelopes, repeats allowed, that
   contains `t` different ones reconstructs the normalised seed.
   */
  lemma ShareThenReconstruct(h: TextHash, req: Sharing.Request, picks: seq<nat>)
    requires Sharing.Share(h, req).Ok?
    requires forall i :: 0 <= i < |picks| ==> picks[i] < req.n
    requires |SetOf(picks)| >= req.t
    ensures |Sharing.Share(h, req).value.shareEnvelopes| == req.n
    ensures ReadsFull(NitsShamir.RealReader(h)) && NormalizeDigest(req.seed).Ok?
    ensures Reconstruct(NitsShamir.RealReader(h), NitsShamir.Pick(Sharing.Share(h, req).value.shareEnvelopes, picks))
            == NormalizeDigest(req.seed)
  {
    NitsShamir.RealReaderReadsFull(h);
    var cm, chunks, rows, xs := NitsShamir.ShareIngredients(h, req);
    NitsShamir.AllIssued(h, req, cm, chunks, rows, xs);
    var header := Header(SCHEME, cm.idHash, req.ver, req.epoch, req.n, req.t, SECRET_TYPE);
    PickedReconstruct(NitsShamir.RealReader(h), Sharing.Share(h, req).value.shareEnvelopes, header, rows, xs, picks, req.t);
    JoinSplit(req.seed);
  }

  lemma PickedReconstruct(rd: Reader, envs: seq<ShareEnvelope>, header: Header, rows: seq<seq<nat>>,
                          xs: seq<Sharing.NonZero>, picks: seq<nat>, t: U32)
    requires ReadsFull(rd) && ThresholdRows(rows, t) && |xs| == |envs| && DistinctNats(xs)
    requires header.t == t && header.scheme == SCHEME
    requires forall k :: 0 <= k < |envs| ==> IsShareAt(rd, envs[k], header, rows, xs[k])
    requires forall i :: 0 <= i < |picks| ==> picks[i] < |envs|
    requires |SetOf(picks)| >= t
    ensures AllBelow(Constants(rows), 65536)
    ensures Reconstruct(rd, NitsShamir.Pick(envs, picks)) == Ok(JoinSeed(Constants(rows)).value)
  {
    var pickedXs: seq<Felt> := seq(|picks|, i requires 0 <= i < |picks| => xs[picks[i]]);
    PickedCount(xs, picks, pickedXs);
    SetOfSize(picks);
    ReconstructIssued(rd, NitsShamir.Pick(envs, picks), rows, pickedXs, t);
  }

  /** Different picks name different points. */
  lemma {:induction false} PickedCount(xs: seq<Felt>, picks: seq<nat>, pickedXs: seq<Felt>)
    requires DistinctNats(xs) && |pickedXs| == |picks|
    requires forall i :: 0 <= i < |picks| ==> picks[i] < |xs| && pickedXs[i] == xs[picks[i]]
    ensures |SetOf(pickedXs)| == |SetOf(picks)|
  {
    if picks != [] {
      var p, x := picks[0], pickedXs[0];
      PickedCount(xs, picks[1..], pickedXs[1..]);
      SetOfCons(picks);
      SetOfCons(pickedXs);
      SamePick(xs, picks[1..], pickedXs[1..], p);
    }
  }

  lemma SamePick(xs: seq<Felt>, picks: seq<nat>, pickedXs: seq<Felt>, p: nat)
    requires DistinctNats(xs) && |pickedXs| == |picks| && p < |xs|
    requires forall i :: 0 <= i < |picks| ==> picks[i] < |xs| && pickedXs[i] == xs[picks[i]]
    ensures xs[p] in SetOf(pickedXs) <==> p in SetOf(picks)
  {
    if p in picks {
      var i :| 0 <= i < |picks| && picks[i] == p;
      assert pickedXs[i] == xs[p];
    }
    if xs[p] in pickedXs {
      var i :| 0 <= i < |pickedXs| && pickedXs[i] == xs[p];
      assert xs[picks[i]] == xs[p];
    }
  }

  // ----- the loops -----

  method ReconstructSeedFromShares(rd: Reader, shares: seq<ShareEnvelope>) returns (r: Outcome<string>)
    requires ReadsFull(rd)
    ensures r == Reconstruct(rd, shares)
  {
    if |shares| == 0 {
      return Throw("no_shares");
    }
    var gathered := GatherDistinct(rd, shares);
    if gathered.Throw? {
      return Throw(gathered.error);
    }
    CollectDistinctFull(rd, shares[0], shares, []);
    var points, t := gathered.value, shares[0].t;
    if |points| < t {
      return Throw("not_enough_distinct_points");
    }
    var recovered: seq<U32> := [];
    for c := 0 to 16
      invariant Chunks(points, c) == Ok(Some(recovered))
    {
      var xs: seq<Felt> := PointXs(points);
      var ys: seq<U32> := Column(points, c);
      var v := LagrangeAtZero(xs, ys);
      if v.Throw? {
        ChunksFailure(points, c, 16, v.error);
        return Throw(v.error);
      }
      if v.value > 0xFFFF {
        ChunksOutOfRange(points, c + 1, 16);
        return Throw("recovered_chunk_out_of_range");
      }
      recovered := recovered + [v.value];
    }
    r := JoinSeed(recovered);
  }

  /** The gathering loop: repeated points are skipped. */
  method GatherDistinct(rd: Reader, shares: seq<ShareEnvelope>) returns (r: Outcome<seq<Point>>)
    requires shares != []
    ensures r == CollectDistinct(rd, shares[0], shares, [])
    ensures r.Ok? ==> r.value != []
  {
    var first := shares[0];
    var points: seq<Point>, seen: set<string> := [], {};
    var k := 0;
    assert shares[0..] == shares;
    while k < |shares|
      invariant k <= |shares| && (k > 0 ==> points != [])
      invariant Seen(points, seen)
      invariant CollectDistinct(rd, first, shares[k..], points) == CollectDistinct(rd, first, shares, [])
    {
      var env := shares[k];
      assert shares[k..][0] == env && shares[k..][1..] == shares[k + 1..];
      if env.scheme != SCHEME {
        return Throw("scheme_mismatch");
      }
      if !SameHeader(env, first) {
        return Throw("share_header_mismatch");
      }
      if !env.active {
        return Throw("inactive_share_present");
      }
      var x := rd.x(env.xiHex);
      if x.Throw? {
        return Throw(x.error);
      }
      k := k + 1;
      SeenMeansHasX(points, seen, x.value);
      if FieldToHex(x.value) !in seen {
        var ys := rd.ys(env.yiHex);
        if ys.Throw? {
          return Throw(ys.error);
        }
        SeenStep(points, seen, Point(x.value, ys.value));
        points, seen := points + [Point(x.value, ys.value)], seen + {FieldToHex(x.value)};
        if |points| == first.t {
          return Ok(points);
        }
      }
    }
    r := Ok(points);
  }
}
