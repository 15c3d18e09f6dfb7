/**
 Recovering a seed from share envelopes. `Reader` holds the three text-level
 operations recovery uses, so that the control flow is specified on its own.
 */
module Recovery {
  import opened Outcomes
  import opened NumberTheory
  import opened ShareField
  import opened Polynomials
  import opened Interpolation
  import opened Hex
  import opened Packing
  import opened FieldText
  import opened Envelope
  import Sharing

  datatype Reader = Reader(
    verify: ShareEnvelope -> Outcome<Check>,
    x: string -> Outcome<Felt>,
    ys: string -> Outcome<seq<nat>>)

  datatype Header = Header(scheme: string, idHash: string, ver: U64, epoch: U64, n: U32, t: U32, secretType: string)

  function HeaderOf(env: ShareEnvelope): Header
  {
    Header(env.scheme, env.idHash, env.ver, env.epoch, env.n, env.t, env.secretType)
  }

  datatype RecError =
    | NoShares | BadShare(reason: Reason) | InsufficientShares | ShareHeaderMismatch
    | InactiveSharePresent | DuplicateX | BadYEncoding(what: string)
    | NotEnoughDistinctPoints | RecoveredChunkOutOfRange

  datatype RecResult = Recovered(seed: string, used: U32) | Rejected(err: RecError)

  datatype Point = Point(x: Felt, ys: seq<nat>)

  datatype Gather = Gathered(points: seq<Point>) | Refused(err: RecError)

  predicate HasX(points: seq<Point>, x: Felt)
  {
    exists i :: 0 <= i < |points| && points[i].x == x
  }

  /** Consuming shares one by one until `first.t` points are there. */
  function Collect(rd: Reader, first: ShareEnvelope, shares: seq<ShareEnvelope>, points: seq<Point>): Outcome<Gather>
  {
    if shares == [] then Ok(Gathered(points)) else
      var env := shares[0];
      var check :- rd.verify(env);
      if check.Fail? then Ok(Refused(BadShare(check.reason)))
      else if HeaderOf(env) != HeaderOf(first) then Ok(Refused(ShareHeaderMismatch))
      else if !env.active then Ok(Refused(InactiveSharePresent))
      else
        var x :- rd.x(env.xiHex);
        if HasX(points, x) then Ok(Refused(DuplicateX))
        else
          var ys := rd.ys(env.yiHex);
          if ys.Throw? then Ok(Refused(BadYEncoding(ys.error)))
          else if |points| + 1 == first.t then Ok(Gathered(points + [Point(x, ys.value)]))
          else Collect(rd, first, shares[1..], points + [Point(x, ys.value)])
  }

  function PointXs(points: seq<Point>): (xs: seq<Felt>)
    ensures |xs| == |points|
  {
    seq(|points|, i requires 0 <= i < |points| => points[i].x)
  }

  /** Sixteen 17-bit values at every point. */
  predicate Full(points: seq<Point>)
  {
    forall i :: 0 <= i < |points| ==> |points[i].ys| == 16 && AllBelow(points[i].ys, 131072)
  }

  function Column(points: seq<Point>, c: nat): (ys: seq<nat>)
    requires Full(points) && c < 16
    ensures |ys| == |points|
  {
    seq(|points|, i requires 0 <= i < |points| => points[i].ys[c])
  }

  /** The first `c` recovered chunks, or `None` once one leaves the 16-bit range. */
  function Chunks(points: seq<Point>, c: nat): (r: Outcome<Option<seq<nat>>>)
    requires Full(points) && c <= 16
    ensures r.Ok? && r.value.Some? ==> |r.value.value| == c && AllBelow(r.value.value, 65536)
  {
    if c == 0 then Ok(Some([])) else
      var before :- Chunks(points, c - 1);
      if before.None? then Ok(None) else
        var v :- AtZero(PointXs(points), Column(points, c - 1));
        Ok(if v > 0xFFFF then None else Some(before.value + [v as nat]))
  }

  function Finish(points: seq<Point>, t: U32): Outcome<RecResult>
    requires Full(points)
  {
    if |points| < t then Ok(Rejected(NotEnoughDistinctPoints)) else
      var chunks :- Chunks(points, 16);
      if chunks.None? then Ok(Rejected(RecoveredChunkOutOfRange)) else
        var seed :- JoinSeed(chunks.value);
        Ok(Recovered(seed, t))
  }

  ghost predicate ReadsFull(rd: Reader)
  {
    forall s :: rd.ys(s).Ok? ==> |rd.ys(s).value| == 16 && AllBelow(rd.ys(s).value, 131072)
  }

  lemma {:induction false} CollectFull(rd: Reader, first: ShareEnvelope, shares: seq<ShareEnvelope>, points: seq<Point>)
    requires ReadsFull(rd) && Full(points)
    ensures var g := Collect(rd, first, shares, points); g.Ok? && g.value.Gathered? ==> Full(g.value.points)
    decreases |shares|
  {
    var g := Collect(rd, first, shares, points);
    if shares != [] && g.Ok? && g.value.Gathered? && |points| + 1 != first.t {
      var env := shares[0];
      CollectFull(rd, first, shares[1..], points + [Point(rd.x(env.xiHex).value, rd.ys(env.yiHex).value)]);
    }
  }

  function Recover(rd: Reader, shares: seq<ShareEnvelope>): Outcome<RecResult>
    requires ReadsFull(rd)
  {
    if shares == [] then Ok(Rejected(NoShares)) else
      var first := shares[0];
      var check :- rd.verify(first);
      if check.Fail? then Ok(Rejected(BadShare(check.reason)))
      else if |shares| < first.t then Ok(Rejected(InsufficientShares))
      else
        var gather :- Collect(rd, first, shares, []);
        CollectFull(rd, first, shares, []);
        if gather.Refused? then Ok(Rejected(gather.err)) else Finish(gather.points, first.t)
  }

  // ----- shares issued from one set of polynomials -----

  /** `env` is a valid, active share at `x` of the polynomials `rows`. */
  predicate IsShareAt(rd: Reader, env: ShareEnvelope, header: Header, rows: seq<seq<nat>>, x: Felt)
    requires Sharing.Rows(rows)
  {
    && rd.verify(env) == Ok(Pass) && env.active && HeaderOf(env) == header
    && rd.x(env.xiHex) == Ok(x) && rd.ys(env.yiHex) == Ok(Sharing.Values(rows, x))
  }

  function PointsAt(rows: seq<seq<nat>>, xs: seq<Felt>): (points: seq<Point>)
    requires Sharing.Rows(rows)
    ensures |points| == |xs| && Full(points)
  {
    seq(|xs|, i requires 0 <= i < |xs| => Point(xs[i], Sharing.Values(rows, xs[i])))
  }

  predicate ThresholdRows(rows: seq<seq<nat>>, t: nat)
  {
    |rows| == 16 && t >= 1 && forall c :: 0 <= c < 16 ==> |rows[c]| == t && rows[c][0] < 65536
  }

  /** The constant terms of the polynomials: the chunks of the seed. */
  function Constants(rows: seq<seq<nat>>): (chunks: seq<nat>)
    requires Sharing.Rows(rows)
    ensures |chunks| == 16
  {
    seq(16, c requires 0 <= c < 16 => rows[c][0])
  }

  lemma ColumnRecovers(rows: seq<seq<nat>>, xs: seq<Felt>, t: nat, c: nat)
    requires ThresholdRows(rows, t) && |xs| == t && DistinctNats(xs) && c < 16
    ensures AtZero(PointXs(PointsAt(rows, xs)), Column(PointsAt(rows, xs), c)) == Ok(rows[c][0])
  {
    var points := PointsAt(rows, xs);
    var us, ys: seq<int> := PointXs(points), Column(points, c);
    assert us == xs;
    forall i, j | 0 <= i < j < |xs| ensures !Cong(xs[i], xs[j]) {
      SmallCong(xs[i], xs[j]);
    }
    forall i | 0 <= i < |xs| ensures Cong(ys[i], Eval(rows[c], xs[i])) {
      assert ys[i] == Sharing.ValueAt(rows[c], xs[i]);
      ResidueIsCong(Eval(rows[c], xs[i]));
    }
    RecoversConstantTerm(rows[c], xs, ys);
    SmallValue(rows[c][0]);
  }

  lemma SmallCong(a: Felt, b: Felt)
    requires a != b
    ensures !Cong(a, b)
  {
  }

  lemma ResidueIsCong(v: int)
    ensures Cong(v % 65537, v)
  {
  }

  lemma SmallValue(v: nat)
    requires v < 65536
    ensures v % 65537 == v
  {
  }

  lemma {:induction false} ChunksRecover(rows: seq<seq<nat>>, xs: seq<Felt>, t: nat, c: nat)
    requires ThresholdRows(rows, t) && |xs| == t && DistinctNats(xs) && c <= 16
    ensures Chunks(PointsAt(rows, xs), c) == Ok(Some(Constants(rows)[..c]))
  {
    if c > 0 {
      ChunksRecover(rows, xs, t, c - 1);
      ColumnRecovers(rows, xs, t, c - 1);
      assert Constants(rows)[..c] == Constants(rows)[..c - 1] + [rows[c - 1][0]];
    }
  }

  /** `t` distinct points of the polynomials recover the seed whose chunks are the constant terms. */
  lemma FinishRecovers(rows: seq<seq<nat>>, xs: seq<Felt>, t: U32)
    requires ThresholdRows(rows, t) && |xs| == t && DistinctNats(xs)
    ensures AllBelow(Constants(rows), 65536)
    ensures Finish(PointsAt(rows, xs), t) == Ok(Recovered(JoinSeed(Constants(rows)).value, t))
  {
    ChunksRecover(rows, xs, t, 16);
    assert Constants(rows)[..16] == Constants(rows);
  }

  lemma {:induction false} CollectIssued(rd: Reader, first: ShareEnvelope, shares: seq<ShareEnvelope>,
                                         rows: seq<seq<nat>>, xs: seq<Felt>, k: nat)
    requires Sharing.Rows(rows) && |shares| == |xs| && k < first.t <= |shares|
    requires DistinctNats(xs[..first.t])
    requires forall i :: 0 <= i < first.t ==> IsShareAt(rd, shares[i], HeaderOf(first), rows, xs[i])
    ensures Collect(rd, first, shares[k..], PointsAt(rows, xs[..k])) == Ok(Gathered(PointsAt(rows, xs[..first.t])))
    decreases first.t - k
  {
    var points := PointsAt(rows, xs[..k]);
    var env := shares[k];
    assert IsShareAt(rd, env, HeaderOf(first), rows, xs[k]);
    assert shares[k..][0] == env && shares[k..][1..] == shares[k + 1..];
    assert !HasX(points, xs[k]) by {
      assert forall i :: 0 <= i < k ==> points[i].x == xs[..first.t][i];
      assert xs[..first.t][k] == xs[k];
    }
    assert points + [Point(xs[k], Sharing.Values(rows, xs[k]))] == PointsAt(rows, xs[..k + 1]);
    if k + 1 < first.t {
      CollectIssued(rd, first, shares, rows, xs, k + 1);
    }
  }

  /** Any list whose first `t` shares are distinct shares of the polynomials recovers their seed. */
  lemma RecoverIssued(rd: Reader, shares: seq<ShareEnvelope>, rows: seq<seq<nat>>, xs: seq<Felt>, t: U32)
    requires ReadsFull(rd) && ThresholdRows(rows, t) && 1 <= t <= |shares| == |xs|
    requires shares[0].t == t && DistinctNats(xs[..t])
    requires forall i :: 0 <= i < t ==> IsShareAt(rd, shares[i], HeaderOf(shares[0]), rows, xs[i])
    ensures AllBelow(Constants(rows), 65536)
    ensures Recover(rd, shares) == Ok(Recovered(JoinSeed(Constants(rows)).value, t))
  {
    assert IsShareAt(rd, shares[0], HeaderOf(shares[0]), rows, xs[0]);
    CollectIssued(rd, shares[0], shares, rows, xs, 0);
    assert shares[0..] == shares && PointsAt(rows, xs[..0]) == [];
    FinishRecovers(rows, xs[..t], t);
  }

  // ----- what success says about the shares consumed -----

  /** Share `i` was accepted against the first one. */
  predicate Accepted(rd: Reader, first: ShareEnvelope, env: ShareEnvelope)
  {
    rd.verify(env) == Ok(Pass) && HeaderOf(env) == HeaderOf(first) && env.active && rd.x(env.xiHex).Ok?
  }

  lemma {:induction false} CollectAccepted(rd: Reader, first: ShareEnvelope, shares: seq<ShareEnvelope>, points: seq<Point>, i: nat)
    requires Collect(rd, first, shares, points).Ok? && Collect(rd, first, shares, points).value.Gathered?
    requires |points| < first.t && i < |shares| && |points| + i < first.t
    ensures Accepted(rd, first, shares[i])
    ensures !HasX(points, rd.x(shares[i].xiHex).value)
    ensures forall j :: i < j < |shares| && |points| + j < first.t ==>
              rd.x(shares[j].xiHex).Ok? && rd.x(shares[j].xiHex).value != rd.x(shares[i].xiHex).value
    decreases |shares|
  {
    var env := shares[0];
    var x, rest := rd.x(env.xiHex).value, shares[1..];
    var more := points + [Point(x, rd.ys(env.yiHex).value)];
    assert more[|points|].x == x;
    if i > 0 {
      CollectAccepted(rd, first, rest, more, i - 1);
      assert forall k :: 0 <= k < |points| ==> points[k] == more[k];
      forall j | i < j < |shares| && |points| + j < first.t
        ensures rd.x(shares[j].xiHex).Ok? && rd.x(shares[j].xiHex).value != rd.x(shares[i].xiHex).value
      {
        assert shares[j] == rest[j - 1];
      }
    } else {
      forall j | 0 < j < |shares| && |points| + j < first.t
        ensures rd.x(shares[j].xiHex).Ok? && rd.x(shares[j].xiHex).value != x
      {
        CollectAccepted(rd, first, rest, more, j - 1);
        assert shares[j] == rest[j - 1];
      }
    }
  }

  /**
   Recovery succeeds only on lists whose first `t` shares all verify, carry the
   header of the first, are active, and name pairwise different points.
   */
  lemma RecoveredMeansAccepted(rd: Reader, shares: seq<ShareEnvelope>, seed: string, used: U32, i: nat)
    requires ReadsFull(rd) && Recover(rd, shares) == Ok(Recovered(seed, used)) && i < shares[0].t
    ensures shares != [] && used == shares[0].t <= |shares|
    ensures Accepted(rd, shares[0], shares[i])
    ensures forall j :: i < j < shares[0].t ==>
              rd.x(shares[j].xiHex).Ok? && rd.x(shares[j].xiHex).value != rd.x(shares[i].xiHex).value
  {
    CollectAccepted(rd, shares[0], shares, [], i);
  }

  /** A list whose first `t` shares mix versions is never accepted. */
  lemma MixedVersionsRejected(rd: Reader, shares: seq<ShareEnvelope>, i: nat)
    requires ReadsFull(rd) && i < |shares| && i < shares[0].t
    requires (shares[i].ver, shares[i].epoch) != (shares[0].ver, shares[0].epoch)
    ensures !(Recover(rd, shares).Ok? && Recover(rd, shares).value.Recovered?)
  {
    if Recover(rd, shares).Ok? && Recover(rd, shares).value.Recovered? {
      RecoveredMeansAccepted(rd, shares, Recover(rd, shares).value.seed, Recover(rd, shares).value.used, i);
    }
  }

  // ----- the loops -----

  method RecoverLoop(rd: Reader, shares: seq<ShareEnvelope>) returns (r: Outcome<RecResult>)
    requires ReadsFull(rd)
    ensures r == Recover(rd, shares)
  {
    if |shares| == 0 {
      return Ok(Rejected(NoShares));
    }
    var first := shares[0];
    var check := rd.verify(first);
    if check.Throw? {
      return Throw(check.error);
    }
    if check.value.Fail? {
      return Ok(Rejected(BadShare(check.value.reason)));
    }
    if |shares| < first.t {
      return Ok(Rejected(InsufficientShares));
    }
    var gather := GatherLoop(rd, first, shares);
    if gather.Throw? {
      return Throw(gather.error);
    }
    CollectFull(rd, first, shares, []);
    if gather.value.Refused? {
      return Ok(Rejected(gather.value.err));
    }
    r := FinishLoop(gather.value.points, first.t);
  }

  /** The set of normalised x texts stands for the points already there. */
  method GatherLoop(rd: Reader, first: ShareEnvelope, shares: seq<ShareEnvelope>) returns (r: Outcome<Gather>)
    ensures r == Collect(rd, first, shares, [])
  {
    var points: seq<Point>, seenX: set<string> := [], {};
    var k := 0;
    assert shares[0..] == shares;
    while k < |shares|
      invariant k <= |shares|
      invariant Seen(points, seenX)
      invariant Collect(rd, first, shares[k..], points) == Collect(rd, first, shares, [])
    {
      var env := shares[k];
      assert shares[k..][0] == env && shares[k..][1..] == shares[k + 1..];
      var check := rd.verify(env);
      if check.Throw? {
        return Throw(check.error);
      }
      if check.value.Fail? {
        return Ok(Refused(BadShare(check.value.reason)));
      }
      if HeaderOf(env) != HeaderOf(first) {
        return Ok(Refused(ShareHeaderMismatch));
      }
      if !env.active {
        return Ok(Refused(InactiveSharePresent));
      }
      var x := rd.x(env.xiHex);
      if x.Throw? {
        return Throw(x.error);
      }
      SeenMeansHasX(points, seenX, x.value);
      if FieldToHex(x.value) in seenX {
        return Ok(Refused(DuplicateX));
      }
      var ys := rd.ys(env.yiHex);
      if ys.Throw? {
        return Ok(Refused(BadYEncoding(ys.error)));
      }
      var before := points;
      points := points + [Point(x.value, ys.value)];
      SeenStep(before, seenX, Point(x.value, ys.value));
      seenX := seenX + {FieldToHex(x.value)};
      k := k + 1;
      if |points| == first.t {
        return Ok(Gathered(points));
      }
    }
    r := Ok(Gathered(points));
  }

  ghost predicate Seen(points: seq<Point>, seenX: set<string>)
  {
    forall s :: s in seenX <==> exists i :: 0 <= i < |points| && s == FieldToHex(points[i].x)
  }

  lemma SeenMeansHasX(points: seq<Point>, seenX: set<string>, x: Felt)
    requires Seen(points, seenX)
    ensures FieldToHex(x) in seenX <==> HasX(points, x)
  {
    if FieldToHex(x) in seenX {
      var i :| 0 <= i < |points| && FieldToHex(x) == FieldToHex(points[i].x);
      FieldToHexInjective(x, points[i].x);
    }
  }

  lemma SeenStep(points: seq<Point>, seenX: set<string>, p: Point)
    requires Seen(points, seenX)
    ensures Seen(points + [p], seenX + {FieldToHex(p.x)})
  {
    var more := points + [p];
    assert more[|points|] == p;
    forall s ensures s in seenX + {FieldToHex(p.x)} <==> exists i :: 0 <= i < |more| && s == FieldToHex(more[i].x) {
      if s in seenX {
        var i :| 0 <= i < |points| && s == FieldToHex(points[i].x);
        assert more[i] == points[i];
      }
      if i :| 0 <= i < |more| && s == FieldToHex(more[i].x) {
        if i < |points| {
          assert points[i] == more[i];
        }
      }
    }
  }

  method FinishLoop(points: seq<Point>, t: U32) returns (r: Outcome<RecResult>)
    requires Full(points)
    ensures r == Finish(points, t)
  {
    if |points| < t {
      return Ok(Rejected(NotEnoughDistinctPoints));
    }
    var recovered: seq<U32> := [];
    for c := 0 to 16
      invariant Chunks(points, c) == Ok(Some(recovered))
    {
      var xs: seq<Felt>, ys: seq<U32> := [], [];
      for i := 0 to |points|
        invariant xs == PointXs(points)[..i] && ys == Column(points, c)[..i]
      {
        xs := xs + [points[i].x];
        ys := ys + [points[i].ys[c]];
      }
      assert xs == PointXs(points) && ys == Column(points, c);
      var v := LagrangeInterpolateAtZero(xs, ys);
      if v.Throw? {
        ChunksFailure(points, c, 16, v.error);
        return Throw(v.error);
      }
      if v.value > 0xFFFF {
        ChunksOutOfRange(points, c + 1, 16);
        return Ok(Rejected(RecoveredChunkOutOfRange));
      }
      recovered := recovered + [v.value];
    }
    var seed := ChunksToSeedHex(recovered);  // in range by the checks above
    r := Ok(Recovered(seed.value, t));
  }

  lemma {:induction false} ChunksFailure(points: seq<Point>, c: nat, n: nat, error: string)
    requires Full(points) && c < n <= 16
    requires Chunks(points, c).Ok? && Chunks(points, c).value.Some?
    requires AtZero(PointXs(points), Column(points, c)) == Throw(error)
    ensures Chunks(points, n) == Throw(error)
  {
    if c + 1 < n {
      ChunksFailure(points, c, n - 1, error);
    }
  }

  lemma {:induction false} ChunksOutOfRange(points: seq<Point>, c: nat, n: nat)
    requires Full(points) && c <= n <= 16 && Chunks(points, c) == Ok(None)
    ensures Chunks(points, n) == Ok(None)
  {
    if c < n {
      ChunksOutOfRange(points, c, n - 1);
    }
  }
}
