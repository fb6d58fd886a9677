/** Pico-feature extraction: every visible edge of a normalised outline is cut
    into features of about `PicoFeatureLength`, and in baseline mode the set
    is re-centred on x = 0. */
module PicoFeat {
  import opened Circular
  import opened MfOutline

  /** The default length of one pico-feature. */
  const PICO_FEATURE_LENGTH: real := 0.05

  datatype FPoint = FPoint(x: real, y: real)

  /** A pico-feature's parameters, in the order of its description: y,
      direction, x. */
  datatype PicoFeature = PicoFeature(y: real, dir: real, x: real)

  /** How `ExtractPicoFeatures` was told to normalise the outlines. */
  datatype NormMethod = Baseline | Character

  function PositionOf(p: EdgePt): FPoint {
    FPoint(p.x, p.y)
  }

  /** The angle and length of a segment, which the source computes with
      helpers that are not part of this model. */
  datatype Measure = Measure(angle: real, length: real)

  type Measurer = (FPoint, FPoint) -> Measure

  // ---------------------------------------------------------------------------
  // One segment

  /** The number of features of a segment: its length in feature lengths,
      rounded to the nearest whole number, and never less than one. */
  function FeatureCount(length: real, featureLength: real): (n: int)
    requires featureLength > 0.0
    ensures n >= 1
    ensures length / featureLength >= 0.5 ==> (n as real) - 0.5 <= length / featureLength < (n as real) + 0.5
    ensures length / featureLength < 0.5 ==> n == 1
    ensures length / featureLength < 1.5 ==> n == 1
  {
    var rounded := (length / featureLength + 0.5).Floor;
    if rounded < 1 then 1 else rounded
  }

  /** The count is the only whole number of at least one that is the length
      in feature lengths rounded to nearest, or one when that rounds to
      zero. */
  lemma FeatureCountUnique(length: real, featureLength: real, m: int)
    requires featureLength > 0.0 && m >= 1
    requires length / featureLength >= 0.5 ==> (m as real) - 0.5 <= length / featureLength < (m as real) + 0.5
    requires length / featureLength < 0.5 ==> m == 1
    ensures m == FeatureCount(length, featureLength)
  {
    var n := FeatureCount(length, featureLength);
    var q := length / featureLength;
    if q >= 0.5 {
      assert (n as real) - 0.5 <= q < (m as real) + 0.5;
      assert (m as real) - 0.5 <= q < (n as real) + 0.5;
    }
  }

  /** The step from one feature centre to the next. */
  function Delta(start: FPoint, end: FPoint, n: int): FPoint
    requires n >= 1
  {
    FPoint((end.x - start.x) / n as real, (end.y - start.y) / n as real)
  }

  /** Centre `i` of a segment cut into `n` equal pieces: the middle of piece
      `i`. */
  function Centre(start: FPoint, end: FPoint, n: int, i: int): FPoint
    requires n >= 1
  {
    var d := Delta(start, end, n);
    FPoint(start.x + (i as real + 0.5) * d.x, start.y + (i as real + 0.5) * d.y)
  }

  /** The features of one segment: one per piece, at the piece's centre, all
      with the segment's angle. */
  function SegmentFeatures(start: FPoint, end: FPoint, m: Measure, featureLength: real): (r: seq<PicoFeature>)
    requires featureLength > 0.0
    ensures |r| == FeatureCount(m.length, featureLength)
  {
    var n := FeatureCount(m.length, featureLength);
    seq(n, i requires 0 <= i < n => var c := Centre(start, end, n, i); PicoFeature(c.y, m.angle, c.x))
  }

  /** `ConvertSegmentToPicoFeat`: append the features of the segment from
      `start` to `end`, stepping the centre along by one piece at a time. */
  method ConvertSegmentToPicoFeat(start: FPoint, end: FPoint, m: Measure, featureLength: real,
                                  features: seq<PicoFeature>)
    returns (r: seq<PicoFeature>)
    requires featureLength > 0.0
    ensures r == features + SegmentFeatures(start, end, m, featureLength)
  {
    var n := FeatureCount(m.length, featureLength);
    var delta := Delta(start, end, n);
    var cx := start.x + delta.x / 2.0;
    var cy := start.y + delta.y / 2.0;
    r := features;
    var i := 0;
    while i < n
      invariant 0 <= i <= n
      invariant cx == start.x + (i as real + 0.5) * delta.x
      invariant cy == start.y + (i as real + 0.5) * delta.y
      invariant r == features + SegmentFeatures(start, end, m, featureLength)[..i]
    {
      ghost var all := SegmentFeatures(start, end, m, featureLength);
      assert all[i] == PicoFeature(cy, m.angle, cx);
      assert all[..i + 1] == all[..i] + [all[i]];
      r := r + [PicoFeature(cy, m.angle, cx)];
      cx := cx + delta.x;
      cy := cy + delta.y;
      i := i + 1;
    }
    assert SegmentFeatures(start, end, m, featureLength)[..n] == SegmentFeatures(start, end, m, featureLength);
  }

  /** A centre at fraction `t` of the way from `a` to `b`, with 0 < t < 1,
      lies strictly between them. */
  lemma StrictlyBetween(a: real, b: real, t: real)
    requires 0.0 < t < 1.0
    ensures a < b ==> a < a + t * (b - a) < b
    ensures b < a ==> b < a + t * (b - a) < a
    ensures a == b ==> a + t * (b - a) == a
  {
    var d := b - a;
    var u := 1.0 - t;
    var p := t * d;
    var q := u * d;
    assert p + q == d;
    if a < b {
      PositiveProduct(t, d);
      PositiveProduct(u, d);
    } else if b < a {
      PositiveProduct(t, -d);
      PositiveProduct(u, -d);
      assert t * -d == -p && u * -d == -q;
    }
  }

  lemma PositiveProduct(x: real, y: real)
    requires x > 0.0 && y > 0.0
    ensures x * y > 0.0
  {
  }

  lemma NonPositiveProduct(x: real, y: real)
    requires x <= 0.0 && y > 0.0
    ensures x * y <= 0.0
  {
  }

  /** A proper fraction of a positive whole. */
  lemma ProperFraction(x: real, y: real)
    requires 0.0 < x < y
    ensures 0.0 < x / y < 1.0
  {
    var t := x / y;
    assert t * y == x;
    if t <= 0.0 {
      NonPositiveProduct(t, y);
      assert false;
    }
    if 1.0 - t <= 0.0 {
      NonPositiveProduct(1.0 - t, y);
      assert false;
    }
  }

  /** Along one axis, centre `i` of `n` lies strictly between the ends when
      they differ, and on them when they do not. */
  lemma CentreInsideAxis(a: real, b: real, n: int, i: int)
    requires 0 <= i < n
    ensures var c := a + (i as real + 0.5) * ((b - a) / n as real);
      && (a < b ==> a < c < b)
      && (b < a ==> b < c < a)
      && (a == b ==> c == a)
  {
    var t := (i as real + 0.5) / n as real;
    ProperFraction(i as real + 0.5, n as real);
    assert (i as real + 0.5) * ((b - a) / n as real) == t * (b - a);
    StrictlyBetween(a, b, t);
  }

  /** Every centre lies strictly inside the segment along each axis the
      segment moves in. */
  lemma CentreInside(start: FPoint, end: FPoint, n: int, i: int)
    requires 0 <= i < n
    ensures var c := Centre(start, end, n, i);
      && (start.x < end.x ==> start.x < c.x < end.x)
      && (end.x < start.x ==> end.x < c.x < start.x)
      && (start.x == end.x ==> c.x == start.x)
      && (start.y < end.y ==> start.y < c.y < end.y)
      && (end.y < start.y ==> end.y < c.y < start.y)
      && (start.y == end.y ==> c.y == start.y)
  {
    CentreInsideAxis(start.x, end.x, n, i);
    CentreInsideAxis(start.y, end.y, n, i);
  }

  /** Consecutive centres are one piece apart. */
  lemma CentresEvenlySpaced(start: FPoint, end: FPoint, n: int, i: int)
    requires 0 <= i && i + 1 < n
    ensures Centre(start, end, n, i + 1).x - Centre(start, end, n, i).x == Delta(start, end, n).x
    ensures Centre(start, end, n, i + 1).y - Centre(start, end, n, i).y == Delta(start, end, n).y
  {
  }

  /** The first centre is half a piece after the start and the last centre is
      half a piece before the end, for any number of pieces. */
  lemma CentresSpanSegment(start: FPoint, end: FPoint, n: int)
    requires n >= 1
    ensures Centre(start, end, n, 0).x - Delta(start, end, n).x / 2.0 == start.x
    ensures Centre(start, end, n, 0).y - Delta(start, end, n).y / 2.0 == start.y
    ensures Centre(start, end, n, n - 1).x + Delta(start, end, n).x / 2.0 == end.x
    ensures Centre(start, end, n, n - 1).y + Delta(start, end, n).y / 2.0 == end.y
  {
    var d := Delta(start, end, n);
    assert (n as real) * d.x == end.x - start.x;
    assert (n as real) * d.y == end.y - start.y;
  }

  // ---------------------------------------------------------------------------
  // One outline

  /** The edge leaving point `k` is converted when its end point is visible:
      a hidden edge is marked at its end because converted outlines run
      backwards. */
  predicate EdgeVisible(o: Outline, k: nat)
    requires k < |o|
  {
    !o[Succ(k, |o|)].hidden
  }

  /** The features of the edge leaving point `k`. */
  function EdgeFeatures(o: Outline, k: nat, measure: Measurer, featureLength: real): (r: seq<PicoFeature>)
    requires k < |o| && featureLength > 0.0
  {
    if EdgeVisible(o, k) then
      var start := PositionOf(o[k]);
      var end := PositionOf(o[Succ(k, |o|)]);
      SegmentFeatures(start, end, measure(start, end), featureLength)
    else []
  }

  /** An edge yields features exactly when its end point is visible. */
  lemma EdgeFeaturesIff(o: Outline, k: nat, measure: Measurer, featureLength: real)
    requires k < |o| && featureLength > 0.0
    ensures |EdgeFeatures(o, k, measure, featureLength)| > 0 <==> EdgeVisible(o, k)
  {
  }

  /** The features of the first `k` edges, in walk order. */
  function OutlineFeatures(o: Outline, k: nat, measure: Measurer, featureLength: real): (r: seq<PicoFeature>)
    requires k <= |o| && featureLength > 0.0
  {
    if k == 0 then []
    else OutlineFeatures(o, k - 1, measure, featureLength) + EdgeFeatures(o, k - 1, measure, featureLength)
  }

  /** The number of visible edges among the first `k`. */
  function VisibleEdges(o: Outline, k: nat): nat
    requires k <= |o|
  {
    if k == 0 then 0 else VisibleEdges(o, k - 1) + (if EdgeVisible(o, k - 1) then 1 else 0)
  }

  /** Each visible edge yields at least one feature and a hidden edge none, so
      an outline whose edges are all hidden yields nothing. */
  lemma {:induction false} OutlineFeaturesCount(o: Outline, k: nat, measure: Measurer, featureLength: real)
    requires k <= |o| && featureLength > 0.0
    ensures |OutlineFeatures(o, k, measure, featureLength)| >= VisibleEdges(o, k)
    ensures VisibleEdges(o, k) == 0 <==> OutlineFeatures(o, k, measure, featureLength) == []
  {
    if k > 0 {
      OutlineFeaturesCount(o, k - 1, measure, featureLength);
      EdgeFeaturesIff(o, k - 1, measure, featureLength);
    }
  }

  /** Every feature comes from a visible edge. */
  lemma {:induction false} FeaturesFromVisibleEdges(o: Outline, k: nat, measure: Measurer, featureLength: real,
                                                    f: PicoFeature)
    requires k <= |o| && featureLength > 0.0
    requires f in OutlineFeatures(o, k, measure, featureLength)
    ensures exists j :: 0 <= j < k && EdgeVisible(o, j) && f in EdgeFeatures(o, j, measure, featureLength)
  {
    if f in OutlineFeatures(o, k - 1, measure, featureLength) {
      FeaturesFromVisibleEdges(o, k - 1, measure, featureLength, f);
    } else {
      EdgeFeaturesIff(o, k - 1, measure, featureLength);
    }
  }

  lemma AppendAssoc<T>(a: seq<T>, b: seq<T>, c: seq<T>)
    ensures (a + b) + c == a + (b + c)
  {
  }

  /** `ConvertToPicoFeatures2`: nothing for a degenerate outline; otherwise
      walk every edge once from the first point and append the features of
      each edge whose end point is visible. */
  method ConvertToPicoFeatures2(o: Outline, measure: Measurer, featureLength: real, features: seq<PicoFeature>)
    returns (r: seq<PicoFeature>)
    requires featureLength > 0.0
    ensures Degenerate(o) ==> r == features
    ensures !Degenerate(o) ==> r == features + OutlineFeatures(o, |o|, measure, featureLength)
  {
    r := features;
    if Degenerate(o) {
      return;
    }
    var n := |o|;
    var first := 0;
    var current := first;
    var next := Succ(current, n);
    ghost var k := 0;
    var started := false;
    while !started || current != first
      invariant k <= n && current == (if k == n then 0 else k) && next == Succ(current, n)
      invariant started <==> k > 0
      invariant r == features + OutlineFeatures(o, k, measure, featureLength)
      decreases n - k
    {
      ghost var edge := EdgeFeatures(o, k, measure, featureLength);
      assert OutlineFeatures(o, k + 1, measure, featureLength) == OutlineFeatures(o, k, measure, featureLength) + edge;
      ghost var before := r;
      if !o[next].hidden {
        var start := PositionOf(o[current]);
        var end := PositionOf(o[next]);
        r := ConvertSegmentToPicoFeat(start, end, measure(start, end), featureLength, r);
        assert r == before + edge;
      } else {
        assert edge == [];
      }
      AppendAssoc(features, OutlineFeatures(o, k, measure, featureLength), edge);
      current := next;
      next := Succ(current, n);
      k := k + 1;
      started := true;
    }
  }

  // ---------------------------------------------------------------------------
  // Re-centring

  function SumX(features: seq<PicoFeature>): real {
    if |features| == 0 then 0.0 else SumX(features[..|features| - 1]) + features[|features| - 1].x
  }

  /** Every feature moved left by `origin`. */
  function ShiftX(features: seq<PicoFeature>, origin: real): (r: seq<PicoFeature>)
    ensures |r| == |features|
  {
    seq(|features|, i requires 0 <= i < |features| => features[i].(x := features[i].x - origin))
  }

  /** Shifting every feature shifts the sum by the count times the shift. */
  lemma {:induction false} SumXShift(features: seq<PicoFeature>, origin: real)
    ensures SumX(ShiftX(features, origin)) == SumX(features) - (|features| as real) * origin
    decreases |features|
  {
    if |features| > 0 {
      var n := |features|;
      assert ShiftX(features, origin)[..n - 1] == ShiftX(features[..n - 1], origin);
      SumXShift(features[..n - 1], origin);
    }
  }

  /** Moving by the mean x leaves x summing to zero. */
  lemma ShiftByMeanCentres(features: seq<PicoFeature>)
    requires |features| > 0
    ensures SumX(ShiftX(features, SumX(features) / |features| as real)) == 0.0
  {
    SumXShift(features, SumX(features) / |features| as real);
  }

  /** Re-centring is the only uniform shift of x that leaves x summing to
      zero: the amount must be the mean x. */
  lemma CentringUnique(features: seq<PicoFeature>, c: real)
    requires |features| > 0
    requires SumX(ShiftX(features, c)) == 0.0
    ensures c == SumX(features) / |features| as real
  {
    SumXShift(features, c);
    QuotientOfProduct(SumX(features), |features| as real, c);
  }

  lemma QuotientOfProduct(s: real, n: real, c: real)
    requires n > 0.0 && s - n * c == 0.0
    ensures c == s / n
  {
    assert s == n * c;
  }

  /** A set whose x already sums to zero is left where it is. */
  lemma CentredStays(features: seq<PicoFeature>)
    requires SumX(features) == 0.0
    ensures ShiftX(features, 0.0) == features
  {
  }

  /** `NormalizePicoX`: subtract the mean x from every feature, leaving
      direction and y alone; the x parameters then sum to zero.  An empty set
      stays empty (the source divides zero by zero but then has no feature to
      move). */
  method NormalizePicoX(features: seq<PicoFeature>) returns (r: seq<PicoFeature>)
    ensures |r| == |features|
    ensures forall i :: 0 <= i < |r| ==> r[i].y == features[i].y && r[i].dir == features[i].dir
    ensures |features| > 0 ==> r == ShiftX(features, SumX(features) / |features| as real)
    ensures SumX(r) == 0.0
  {
    var n := |features|;
    var origin := 0.0;
    var i := 0;
    while i < n
      invariant i <= n && origin == SumX(features[..i])
    {
      assert features[..i + 1][..i] == features[..i];
      origin := origin + features[i].x;
      i := i + 1;
    }
    assert features[..n] == features;
    if n > 0 {
      origin := origin / n as real;
    }
    r := [];
    i := 0;
    while i < n
      invariant i <= n && r == ShiftX(features, origin)[..i]
    {
      r := r + [features[i].(x := features[i].x - origin)];
      i := i + 1;
    }
    if n > 0 {
      ShiftByMeanCentres(features);
    }
  }

  // ---------------------------------------------------------------------------
  // ExtractPicoFeatures

  /** The features of the outlines, in order. */
  function AllFeatures(outlines: seq<Outline>, measure: Measurer, featureLength: real): seq<PicoFeature>
    requires featureLength > 0.0
  {
    if |outlines| == 0 then []
    else
      var o := outlines[|outlines| - 1];
      AllFeatures(outlines[..|outlines| - 1], measure, featureLength)
        + (if Degenerate(o) then [] else OutlineFeatures(o, |o|, measure, featureLength))
  }

  /** The loop of `ExtractPicoFeatures` over the normalised outlines, then the
      re-centring, which happens only in baseline mode. */
  method ExtractPicoFeatures(outlines: seq<Outline>, normMethod: NormMethod, measure: Measurer, featureLength: real)
    returns (r: seq<PicoFeature>)
    requires featureLength > 0.0
    ensures normMethod == Character ==> r == AllFeatures(outlines, measure, featureLength)
    ensures normMethod == Baseline ==> |r| == |AllFeatures(outlines, measure, featureLength)| && SumX(r) == 0.0
    ensures var all := AllFeatures(outlines, measure, featureLength);
      normMethod == Baseline && |all| > 0 ==> r == ShiftX(all, SumX(all) / |all| as real)
    ensures normMethod == Baseline && |AllFeatures(outlines, measure, featureLength)| == 0 ==> r == []
    ensures normMethod == Baseline ==> forall i :: 0 <= i < |r| ==>
      r[i].y == AllFeatures(outlines, measure, featureLength)[i].y
      && r[i].dir == AllFeatures(outlines, measure, featureLength)[i].dir
  {
    r := [];
    var i := 0;
    while i < |outlines|
      invariant i <= |outlines| && r == AllFeatures(outlines[..i], measure, featureLength)
    {
      assert outlines[..i + 1][..i] == outlines[..i];
      r := ConvertToPicoFeatures2(outlines[i], measure, featureLength, r);
      i := i + 1;
    }
    assert outlines[..i] == outlines;
    if normMethod == Baseline {
      r := NormalizePicoX(r);
    }
  }
}
