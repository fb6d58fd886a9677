/** Noise filtering on a micro-feature outline: runs of one direction that are
    shorter than a noise length take over the direction of the run before
    them, provided the outline has two long runs running different ways. */
module EdgeNoise {
  import opened Circular
  import opened MfOutline

  function Position(p: EdgePt): (real, real) {
    (p.x, p.y)
  }

  /** The square of the Euclidean distance between two positions. */
  function SquaredDistance(p: (real, real), q: (real, real)): (sq: real)
    ensures sq >= 0.0
  {
    (p.0 - q.0) * (p.0 - q.0) + (p.1 - q.1) * (p.1 - q.1)
  }

  /** A segment whose squared length is `sq` is shorter than `noise`. */
  predicate BelowNoise(sq: real, noise: real) {
    0.0 < noise && sq < noise * noise
  }

  /** `DistanceBetween` is the square root of the squared distance; for any
      such root `d`, the comparison `d < noise` is `BelowNoise`. */
  lemma ShorterThanNoise(d: real, sq: real, noise: real)
    requires d >= 0.0 && d * d == sq
    ensures d < noise <==> BelowNoise(sq, noise)
  {
    assert (noise - d) * (noise + d) == noise * noise - sq;
    if d < noise {
      assert 0.0 < noise - d && 0.0 < noise + d;
    } else if 0.0 < noise {
      assert noise - d <= 0.0 && 0.0 < noise + d;
    }
  }

  /** The run starting at `s` is shorter than `noise`, measured from `s` to
      the next direction change. */
  predicate ShortRun(o: Outline, s: nat, noise: real)
    requires s < |o| && HasTurn(o)
  {
    BelowNoise(SquaredDistance(Position(o[NextDirectionChange(o, s)]), Position(o[s])), noise)
  }

  /** Two runs that are not noise run in different directions. */
  ghost predicate LongRunsDisagree(o: Outline, noise: real)
    requires HasTurn(o)
  {
    exists s, s' :: 0 <= s < |o| && 0 <= s' < |o| && RunStart(o, s) && RunStart(o, s')
      && !ShortRun(o, s, noise) && !ShortRun(o, s', noise)
      && o[s].direction != o[s'].direction
  }

  /** Only the two direction fields of any point differ. */
  predicate OnlyDirectionsChange(o: Outline, r: Outline) {
    |r| == |o| && forall k {:trigger r[k]} :: 0 <= k < |o| ==>
      r[k] == o[k].(direction := r[k].direction, previousDirection := r[k].previousDirection)
  }

  /** The direction the run starting at `s` ends up with: a long run keeps its
      own, a short one takes the direction recorded as arriving at `s`. */
  function NewDirection(o: Outline, r: Outline, s: nat, noise: real): Direction
    requires s < |o| == |r| && HasTurn(o)
  {
    if ShortRun(o, s, noise) then r[s].previousDirection else o[s].direction
  }

  /** The run starting at `s` runs in `NewDirection`, and the next direction
      change records that direction when the run was relabelled. */
  ghost predicate RunFiltered(o: Outline, r: Outline, s: nat, noise: real)
    requires s < |o| == |r| && HasTurn(o)
  {
    var n := |o|;
    var e := NextDirectionChange(o, s);
    var dir := NewDirection(o, r, s, noise);
    && (forall f :: 0 <= f < NextDirectionChangeOffset(o, s) ==> r[Fwd(s, f, n)].direction == dir)
    && r[e].previousDirection == (if ShortRun(o, s, noise) then dir else o[e].previousDirection)
  }

  /** The outcome of filtering: every run is filtered, and the direction
      arriving at a point changes only where a run starts. */
  ghost predicate Filtered(o: Outline, r: Outline, noise: real)
    requires |r| == |o| && HasTurn(o)
  {
    && (forall k {:trigger r[k]} :: 0 <= k < |o| && !RunStart(o, k) ==> r[k].previousDirection == o[k].previousDirection)
    && (forall s {:trigger RunFiltered(o, r, s, noise)} :: 0 <= s < |o| && RunStart(o, s) ==> RunFiltered(o, r, s, noise))
  }

  // ---------------------------------------------------------------------------
  // Walking by runs

  /** Positions relative to the `t`-th and to the `t + d`-th point after `first`. */
  lemma StepSpan(first: nat, t: nat, d: nat, k: nat, n: nat)
    requires first < n && k < n && t < n && 1 <= d < n && t + d <= n
    ensures Dist(Fwd(first, t, n), k, n)
      == if Dist(first, k, n) >= t then Dist(first, k, n) - t else Dist(first, k, n) + n - t
    ensures Dist(Fwd(first, t, n), Fwd(first, t + d, n), n) == d
    ensures InSpan(Fwd(first, t, n), Fwd(first, t + d, n), k, n) <==> t <= Dist(first, k, n) < t + d
  {
  }

  /** `Fwd` composes. */
  lemma FwdAdd(first: nat, t: nat, f: nat, n: nat)
    requires first < n && t < n && t + f <= n
    ensures Fwd(Fwd(first, t, n), f, n) == Fwd(first, t + f, n)
  {
  }

  /** The search for the next direction change reads only directions up to
      the change it finds. */
  lemma NdcAgree(o: Outline, r: Outline, k: nat)
    requires |r| == |o| && k < |o| && HasTurn(o)
    requires forall f :: 0 <= f <= NextDirectionChangeOffset(o, k) ==>
      r[Fwd(k, f, |o|)].direction == o[Fwd(k, f, |o|)].direction
    ensures HasTurn(r)
    ensures NextDirectionChangeOffset(r, k) == NextDirectionChangeOffset(o, k)
    ensures NextDirectionChange(r, k) == NextDirectionChange(o, k)
  {
    var n := |o|;
    var d := NextDirectionChangeOffset(o, k);
    assert Fwd(k, 0, n) == k;
    assert r[Fwd(k, d, n)].direction != r[k].direction;
  }

  /** Walking from `first` by direction changes, the run starts passed grow by
      exactly the one just left. */
  lemma VisitStep(o: Outline, first: nat, last: nat, t: nat, s: nat)
    requires HasTurn(o) && first < |o| && RunStart(o, first) && s < |o| && RunStart(o, s)
    requires t < |o| && last == Fwd(first, t, |o|)
    ensures t + NextDirectionChangeOffset(o, last) <= |o|
    ensures Fwd(first, t + NextDirectionChangeOffset(o, last), |o|) == NextDirectionChange(o, last)
    ensures Dist(first, s, |o|) < t + NextDirectionChangeOffset(o, last)
      <==> Dist(first, s, |o|) < t || s == last
  {
    var n := |o|;
    var d := NextDirectionChangeOffset(o, last);
    WalkStaysInLap(o, first, last, t);
    StepSpan(first, t, d, s, n);
    var g := Dist(first, s, n);
    FwdFacts(first, t, n);
    if t < g < t + d {
      NoRunStartSkipped(o, last, g - t);
    }
  }

  // ---------------------------------------------------------------------------
  // The relabelling pass

  /** One pass of the relabelling loop: relabel the run at `last` when it is
      short, with the direction recorded as arriving at `last`. */
  function RelabelStep(o: Outline, r: Outline, last: nat, noise: real): (r': Outline)
    requires last < |o| == |r| && HasTurn(o)
    ensures |r'| == |o|
  {
    if ShortRun(o, last, noise) then
      Relabel(r, last, NextDirectionChange(o, last), r[last].previousDirection)
    else r
  }

  /** Points more than `t` steps after `first` are as in the input; the point
      `t` steps after `first` keeps its direction, and `first` is untouched
      until the walk comes back to it. */
  ghost predicate AheadAsInput(o: Outline, r: Outline, first: nat, t: nat) {
    var n := |o|;
    && |r| == n && first < n && t <= n
    && (forall k {:trigger r[k]} :: 0 <= k < n && Dist(first, k, n) > t ==> r[k] == o[k])
    && r[Fwd(first, t, n)].direction == o[Fwd(first, t, n)].direction
    && (t < n ==> r[first] == o[first])
  }

  /** The direction arriving at a point that starts no run is as in the input. */
  ghost predicate PrevKept(o: Outline, r: Outline)
    requires |r| == |o|
  {
    forall k {:trigger r[k]} :: 0 <= k < |o| && !RunStart(o, k) ==> r[k].previousDirection == o[k].previousDirection
  }

  /** Every run starting fewer than `t` steps after `first` is filtered. */
  ghost predicate BehindFiltered(o: Outline, r: Outline, first: nat, t: nat, noise: real)
    requires |r| == |o| && first < |o| && HasTurn(o)
  {
    forall s {:trigger RunFiltered(o, r, s, noise)} :: 0 <= s < |o| && RunStart(o, s) && Dist(first, s, |o|) < t ==>
      RunFiltered(o, r, s, noise)
  }

  /** State of the relabelling pass after `t` steps from the long run start
      `first`: the runs passed are filtered and nothing further on changed,
      apart from the direction arriving at `last`. */
  ghost predicate RelabelledUpTo(o: Outline, r: Outline, first: nat, last: nat, t: nat,
                                 noise: real)
    requires HasTurn(o) && first < |o|
  {
    && |r| == |o| && t <= |o| && last == Fwd(first, t, |o|)
    && RunStart(o, first) && !ShortRun(o, first, noise) && RunStart(o, last)
    && OnlyDirectionsChange(o, r)
    && PrevKept(o, r)
    && AheadAsInput(o, r, first, t)
    && BehindFiltered(o, r, first, t, noise)
  }

  /** Points from `last` up to `first` again are as they were in the input,
      apart from the direction arriving at `last`. */
  lemma AheadUnchanged(o: Outline, r: Outline, first: nat, t: nat, f: nat)
    requires t < |o| && t + f <= |o| && AheadAsInput(o, r, first, t)
    ensures r[Fwd(Fwd(first, t, |o|), f, |o|)].direction == o[Fwd(Fwd(first, t, |o|), f, |o|)].direction
  {
    var n := |o|;
    FwdAdd(first, t, f, n);
    if f == 0 {
    } else if t + f < n {
      FwdFacts(first, t + f, n);
    } else {
      FwdFacts(first, 0, n);
    }
  }

  /** The relabelling pass finds the same direction change as on the input,
      and it lies no further than `first`. */
  lemma RelabelWalk(o: Outline, r: Outline, first: nat, t: nat)
    requires HasTurn(o) && first < |o| && RunStart(o, first) && t < |o| && AheadAsInput(o, r, first, t)
    ensures HasTurn(r)
    ensures NextDirectionChange(r, Fwd(first, t, |o|)) == NextDirectionChange(o, Fwd(first, t, |o|))
    ensures t + NextDirectionChangeOffset(o, Fwd(first, t, |o|)) <= |o|
    ensures Fwd(first, t + NextDirectionChangeOffset(o, Fwd(first, t, |o|)), |o|)
      == NextDirectionChange(o, Fwd(first, t, |o|))
  {
    var n := |o|;
    var last := Fwd(first, t, n);
    var d := NextDirectionChangeOffset(o, last);
    WalkStaysInLap(o, first, last, t);
    forall f | 0 <= f <= d
      ensures r[Fwd(last, f, n)].direction == o[Fwd(last, f, n)].direction
    {
      AheadUnchanged(o, r, first, t, f);
    }
    NdcAgree(o, r, last);
  }

  /** What `Relabel` leaves alone. */
  lemma RelabelFacts(r: Outline, start: nat, end: nat, dir: Direction)
    requires start < |r| && end < |r|
    ensures OnlyDirectionsChange(r, Relabel(r, start, end, dir))
    ensures forall k :: 0 <= k < |r| && k != end ==>
      Relabel(r, start, end, dir)[k].previousDirection == r[k].previousDirection
    ensures forall k :: 0 <= k < |r| && !InSpan(start, end, k, |r|) ==>
      Relabel(r, start, end, dir)[k].direction == r[k].direction
    ensures forall k :: 0 <= k < |r| && !InSpan(start, end, k, |r|) && k != end ==>
      Relabel(r, start, end, dir)[k] == r[k]
    ensures forall k :: 0 <= k < |r| && InSpan(start, end, k, |r|) ==>
      Relabel(r, start, end, dir)[k].direction == dir
    ensures Relabel(r, start, end, dir)[end].previousDirection == dir
  {
  }

  lemma OnlyDirectionsChangeTrans(a: Outline, b: Outline, c: Outline)
    requires OnlyDirectionsChange(a, b) && OnlyDirectionsChange(b, c)
    ensures OnlyDirectionsChange(a, c)
  {
    forall k | 0 <= k < |a|
      ensures c[k] == a[k].(direction := c[k].direction, previousDirection := c[k].previousDirection)
    {
      assert b[k] == a[k].(direction := b[k].direction, previousDirection := b[k].previousDirection);
    }
  }

  /** A relabelling step keeps the part of the outline not yet passed as in
      the input. */
  lemma AheadStep(o: Outline, r: Outline, r': Outline, first: nat, t: nat, d: nat, short: bool, dir: Direction)
    requires t < |o| && 1 <= d < |o| && t + d <= |o| && AheadAsInput(o, r, first, t)
    requires short ==> t > 0
    requires r' == if short then Relabel(r, Fwd(first, t, |o|), Fwd(first, t + d, |o|), dir) else r
    ensures AheadAsInput(o, r', first, t + d)
  {
    var n := |o|;
    var last := Fwd(first, t, n);
    var current := Fwd(first, t + d, n);
    StepSpan(first, t, d, current, n);
    StepSpan(first, t, d, first, n);
    if t + d < n {
      FwdFacts(first, t + d, n);
    } else {
      FwdFacts(first, 0, n);
    }
    if short {
      RelabelFacts(r, last, current, dir);
      forall k | 0 <= k < n && Dist(first, k, n) > t + d
        ensures r'[k] == o[k]
      {
        StepSpan(first, t, d, k, n);
      }
    }
  }

  /** Relabelling a run whose end starts a run keeps `PrevKept`. */
  lemma PrevKeptStep(o: Outline, r: Outline, start: nat, end: nat, dir: Direction)
    requires |r| == |o| && start < |o| && end < |o| && RunStart(o, end)
    requires PrevKept(o, r)
    ensures PrevKept(o, Relabel(r, start, end, dir))
  {
    RelabelFacts(r, start, end, dir);
  }

  /** After a relabelling step the run just passed is filtered. */
  lemma RelabelLastRun(o: Outline, r: Outline, first: nat, t: nat, noise: real)
    requires HasTurn(o) && first < |o| && RunStart(o, first) && !ShortRun(o, first, noise)
    requires t < |o| && AheadAsInput(o, r, first, t)
    requires t + NextDirectionChangeOffset(o, Fwd(first, t, |o|)) <= |o|
    requires Fwd(first, t + NextDirectionChangeOffset(o, Fwd(first, t, |o|)), |o|)
      == NextDirectionChange(o, Fwd(first, t, |o|))
    ensures RunFiltered(o, RelabelStep(o, r, Fwd(first, t, |o|), noise), Fwd(first, t, |o|), noise)
  {
    var n := |o|;
    var last := Fwd(first, t, n);
    var d := NextDirectionChangeOffset(o, last);
    var current := NextDirectionChange(o, last);
    if !ShortRun(o, last, noise) {
      forall f | 0 <= f < d
        ensures r[Fwd(last, f, n)].direction == o[last].direction
      {
        AheadUnchanged(o, r, first, t, f);
      }
      if t + d < n {
        FwdFacts(first, t + d, n);
      } else {
        FwdFacts(first, 0, n);
      }
    } else {
      RelabelFacts(r, last, current, r[last].previousDirection);
      StepSpan(first, t, d, current, n);
      forall f | 0 <= f < d
        ensures InSpan(last, current, Fwd(last, f, n), n)
      {
        FwdFacts(last, f, n);
      }
    }
  }

  /** A relabelling step leaves the directions along a run passed earlier
      alone: the run it relabels lies after that one. */
  lemma RelabelSparesRunPoints(o: Outline, r: Outline, first: nat, t: nat, s: nat, noise: real)
    requires HasTurn(o) && first < |o| && RunStart(o, first)
    requires t < |o| && |r| == |o| && RunStart(o, Fwd(first, t, |o|))
    requires t + NextDirectionChangeOffset(o, Fwd(first, t, |o|)) <= |o|
    requires Fwd(first, t + NextDirectionChangeOffset(o, Fwd(first, t, |o|)), |o|)
      == NextDirectionChange(o, Fwd(first, t, |o|))
    requires s < |o| && RunStart(o, s) && Dist(first, s, |o|) < t
    ensures forall f :: 0 <= f < NextDirectionChangeOffset(o, s) ==>
      RelabelStep(o, r, Fwd(first, t, |o|), noise)[Fwd(s, f, |o|)].direction
        == r[Fwd(s, f, |o|)].direction
  {
    var n := |o|;
    var last := Fwd(first, t, n);
    if ShortRun(o, last, noise) {
      var d := NextDirectionChangeOffset(o, last);
      var current := NextDirectionChange(o, last);
      var dir := r[last].previousDirection;
      var g := Dist(first, s, n);
      var ds := NextDirectionChangeOffset(o, s);
      FwdFacts(first, t, n);
      NdcStopsAtRunStart(o, s, last);
      DistAlong(first, g, t, n);
      assert Fwd(first, g, n) == s;
      forall f | 0 <= f < ds
        ensures RelabelStep(o, r, last, noise)[Fwd(s, f, n)].direction == r[Fwd(s, f, n)].direction
      {
        FwdAdd(first, g, f, n);
        assert Fwd(s, f, n) == Fwd(first, g + f, n);
        WalkBehind(first, t, d, g + f, n);
        RelabelDirOutside(r, last, current, dir, Fwd(s, f, n));
      }
    }
  }

  /** A point fewer than `t` steps after `first` lies outside the run from
      the `t`-th to the `t + d`-th point. */
  lemma WalkBehind(first: nat, t: nat, d: nat, h: nat, n: nat)
    requires first < n && h < t < n && 1 <= d && t + d <= n
    ensures !InSpan(Fwd(first, t, n), Fwd(first, t + d, n), Fwd(first, h, n), n)
  {
  }

  /** `Relabel` keeps the direction of every point outside the run. */
  lemma RelabelDirOutside(r: Outline, start: nat, end: nat, dir: Direction, k: nat)
    requires start < |r| && end < |r| && k < |r| && !InSpan(start, end, k, |r|)
    ensures Relabel(r, start, end, dir)[k].direction == r[k].direction
  {
  }

  /** A relabelling step leaves the direction a run passed earlier ends up
      with alone: only the direction arriving at `first` can change, and
      `first` starts a long run. */
  lemma RelabelSparesRunDirection(o: Outline, r: Outline, first: nat, t: nat, s: nat, noise: real)
    requires HasTurn(o) && first < |o| && RunStart(o, first) && !ShortRun(o, first, noise)
    requires t < |o| && |r| == |o| && RunStart(o, Fwd(first, t, |o|))
    requires t + NextDirectionChangeOffset(o, Fwd(first, t, |o|)) <= |o|
    requires Fwd(first, t + NextDirectionChangeOffset(o, Fwd(first, t, |o|)), |o|)
      == NextDirectionChange(o, Fwd(first, t, |o|))
    requires s < |o| && RunStart(o, s) && Dist(first, s, |o|) < t
    ensures NewDirection(o, RelabelStep(o, r, Fwd(first, t, |o|), noise), s, noise)
      == NewDirection(o, r, s, noise)
  {
    var n := |o|;
    var last := Fwd(first, t, n);
    if ShortRun(o, last, noise) && s != first {
      var d := NextDirectionChangeOffset(o, last);
      var current := NextDirectionChange(o, last);
      var g := Dist(first, s, n);
      assert Fwd(first, g, n) == s;
      FwdApart(first, g, t + d, n);
      RelabelPrevElsewhere(r, last, current, r[last].previousDirection, s);
    }
  }

  /** A relabelling step leaves the direction arriving at the end of a run
      passed earlier alone. */
  lemma RelabelSparesRunEnd(o: Outline, r: Outline, first: nat, t: nat, s: nat, noise: real)
    requires HasTurn(o) && first < |o| && RunStart(o, first) && !ShortRun(o, first, noise)
    requires t < |o| && |r| == |o| && RunStart(o, Fwd(first, t, |o|))
    requires t + NextDirectionChangeOffset(o, Fwd(first, t, |o|)) <= |o|
    requires Fwd(first, t + NextDirectionChangeOffset(o, Fwd(first, t, |o|)), |o|)
      == NextDirectionChange(o, Fwd(first, t, |o|))
    requires s < |o| && RunStart(o, s) && Dist(first, s, |o|) < t
    ensures RelabelStep(o, r, Fwd(first, t, |o|), noise)[NextDirectionChange(o, s)].previousDirection
      == r[NextDirectionChange(o, s)].previousDirection
  {
    var n := |o|;
    var last := Fwd(first, t, n);
    if ShortRun(o, last, noise) {
      var d := NextDirectionChangeOffset(o, last);
      var current := NextDirectionChange(o, last);
      var g := Dist(first, s, n);
      var ds := NextDirectionChangeOffset(o, s);
      var e := NextDirectionChange(o, s);
      FwdFacts(first, t, n);
      NdcStopsAtRunStart(o, s, last);
      DistAlong(first, g, t, n);
      assert ds <= t - g;
      assert Fwd(first, g, n) == s;
      FwdAdd(first, g, ds, n);
      assert e == Fwd(first, g + ds, n);
      FwdApart(first, g + ds, t + d, n);
      RelabelPrevElsewhere(r, last, current, r[last].previousDirection, e);
    }
  }

  /** `Relabel` changes the direction arriving only at the end of the run. */
  lemma RelabelPrevElsewhere(r: Outline, start: nat, end: nat, dir: Direction, k: nat)
    requires start < |r| && end < |r| && k < |r| && k != end
    ensures Relabel(r, start, end, dir)[k].previousDirection == r[k].previousDirection
  {
  }

  /** Walking `g` and then `t - g` more steps from `first` reaches `t`. */
  lemma DistAlong(first: nat, g: nat, t: nat, n: nat)
    requires first < n && g <= t < n
    ensures Dist(Fwd(first, g, n), Fwd(first, t, n), n) == t - g
  {
  }

  /** Two walks from `first` end apart unless their lengths differ by a lap. */
  lemma FwdApart(first: nat, a: nat, b: nat, n: nat)
    requires first < n && 0 < a < b <= n
    ensures Fwd(first, a, n) != Fwd(first, b, n)
  {
  }

  /** A relabelling step keeps a run passed earlier filtered. */
  lemma RelabelKeepsRun(o: Outline, r: Outline, first: nat, t: nat, s: nat, noise: real)
    requires HasTurn(o) && first < |o| && RunStart(o, first) && !ShortRun(o, first, noise)
    requires t < |o| && |r| == |o| && RunStart(o, Fwd(first, t, |o|))
    requires t + NextDirectionChangeOffset(o, Fwd(first, t, |o|)) <= |o|
    requires Fwd(first, t + NextDirectionChangeOffset(o, Fwd(first, t, |o|)), |o|)
      == NextDirectionChange(o, Fwd(first, t, |o|))
    requires s < |o| && RunStart(o, s) && Dist(first, s, |o|) < t
    requires RunFiltered(o, r, s, noise)
    ensures RunFiltered(o, RelabelStep(o, r, Fwd(first, t, |o|), noise), s, noise)
  {
    RelabelSparesRunPoints(o, r, first, t, s, noise);
    RelabelSparesRunDirection(o, r, first, t, s, noise);
    RelabelSparesRunEnd(o, r, first, t, s, noise);
  }

  /** A relabelling step changes only directions, and the direction arriving
      at a point only where a run starts. */
  lemma RelabelStepFrame(o: Outline, r: Outline, last: nat, noise: real)
    requires HasTurn(o) && last < |o| == |r|
    requires OnlyDirectionsChange(o, r) && PrevKept(o, r)
    ensures OnlyDirectionsChange(o, RelabelStep(o, r, last, noise))
    ensures PrevKept(o, RelabelStep(o, r, last, noise))
  {
    if ShortRun(o, last, noise) {
      var current := NextDirectionChange(o, last);
      var r' := RelabelStep(o, r, last, noise);
      RelabelFacts(r, last, current, r[last].previousDirection);
      OnlyDirectionsChangeTrans(o, r, r');
      PrevKeptStep(o, r, last, current, r[last].previousDirection);
    }
  }

  /** A relabelling step keeps every run passed filtered, the one it just
      passed included. */
  lemma RelabelBehindStep(o: Outline, r: Outline, first: nat, t: nat, noise: real)
    requires HasTurn(o) && first < |o| && RunStart(o, first) && !ShortRun(o, first, noise)
    requires t < |o| && |r| == |o| && RunStart(o, Fwd(first, t, |o|))
    requires AheadAsInput(o, r, first, t) && BehindFiltered(o, r, first, t, noise)
    ensures BehindFiltered(o, RelabelStep(o, r, Fwd(first, t, |o|), noise), first,
      t + NextDirectionChangeOffset(o, Fwd(first, t, |o|)), noise)
  {
    var n := |o|;
    var last := Fwd(first, t, n);
    var d := NextDirectionChangeOffset(o, last);
    var r' := RelabelStep(o, r, last, noise);
    WalkStaysInLap(o, first, last, t);
    forall s | 0 <= s < n && RunStart(o, s) && Dist(first, s, n) < t + d
      ensures RunFiltered(o, r', s, noise)
    {
      VisitStep(o, first, last, t, s);
      if s == last {
        RelabelLastRun(o, r, first, t, noise);
      } else {
        RelabelKeepsRun(o, r, first, t, s, noise);
      }
    }
  }

  /** One relabelling step keeps `RelabelledUpTo`, moving on to the next
      direction change. */
  lemma RelabelStepKeeps(o: Outline, r: Outline, first: nat, t: nat, noise: real)
    requires HasTurn(o) && first < |o| && t < |o|
    requires RelabelledUpTo(o, r, first, Fwd(first, t, |o|), t, noise)
    ensures HasTurn(r)
    ensures NextDirectionChange(r, Fwd(first, t, |o|)) == NextDirectionChange(o, Fwd(first, t, |o|))
    ensures RelabelledUpTo(o, RelabelStep(o, r, Fwd(first, t, |o|), noise), first,
      NextDirectionChange(o, Fwd(first, t, |o|)), t + NextDirectionChangeOffset(o, Fwd(first, t, |o|)),
      noise)
  {
    var n := |o|;
    var last := Fwd(first, t, n);
    var d := NextDirectionChangeOffset(o, last);
    var current := NextDirectionChange(o, last);
    var short := ShortRun(o, last, noise);
    var r' := RelabelStep(o, r, last, noise);
    RelabelWalk(o, r, first, t);
    RelabelStepFrame(o, r, last, noise);
    if t == 0 {
      FwdFacts(first, 0, n);
    }
    AheadStep(o, r, r', first, t, d, short, r[last].previousDirection);
    RelabelBehindStep(o, r, first, t, noise);
    assert current == Fwd(first, t + d, n) && RunStart(o, current);
  }

  // ---------------------------------------------------------------------------
  // FilterEdgeNoise

  /** Every run starting fewer than `t` steps after `first` is short. */
  ghost predicate NoLongRunBefore(o: Outline, first: nat, t: nat, noise: real)
    requires HasTurn(o) && first < |o|
  {
    forall s {:trigger ShortRun(o, s, noise)} :: 0 <= s < |o| && RunStart(o, s) && Dist(first, s, |o|) < t ==> ShortRun(o, s, noise)
  }

  /** Every long run starting fewer than `t` steps after `first` runs `dir`. */
  ghost predicate LongRunsBeforeRun(o: Outline, first: nat, t: nat, dir: Direction, noise: real)
    requires HasTurn(o) && first < |o|
  {
    forall s {:trigger ShortRun(o, s, noise)} :: 0 <= s < |o| && RunStart(o, s) && Dist(first, s, |o|) < t && !ShortRun(o, s, noise) ==>
      o[s].direction == dir
  }

  /** Passing a short run keeps all runs seen short. */
  lemma NoLongRunAdvance(o: Outline, first: nat, t: nat, noise: real)
    requires HasTurn(o) && first < |o| && RunStart(o, first) && t < |o|
    ensures var last := Fwd(first, t, |o|);
      NoLongRunBefore(o, first, t, noise) && (RunStart(o, last) ==> ShortRun(o, last, noise))
      ==> NoLongRunBefore(o, first, t + NextDirectionChangeOffset(o, last), noise)
  {
    var n := |o|;
    var last := Fwd(first, t, n);
    var d := NextDirectionChangeOffset(o, last);
    FwdFacts(first, t, n);
    if NoLongRunBefore(o, first, t, noise) && (RunStart(o, last) ==> ShortRun(o, last, noise)) {
      forall s | 0 <= s < n && RunStart(o, s) && Dist(first, s, n) < t + d
        ensures ShortRun(o, s, noise)
      {
        VisitStep(o, first, last, t, s);
      }
    }
  }

  /** Passing a short run, or a long one running `dir`, keeps all long runs
      seen running `dir`. */
  lemma LongRunsAdvance(o: Outline, first: nat, t: nat, dir: Direction, noise: real)
    requires HasTurn(o) && first < |o| && RunStart(o, first) && t < |o|
    ensures var last := Fwd(first, t, |o|);
      LongRunsBeforeRun(o, first, t, dir, noise)
      && (RunStart(o, last) && !ShortRun(o, last, noise) ==> o[last].direction == dir)
      ==> LongRunsBeforeRun(o, first, t + NextDirectionChangeOffset(o, last), dir, noise)
  {
    var n := |o|;
    var last := Fwd(first, t, n);
    var d := NextDirectionChangeOffset(o, last);
    FwdFacts(first, t, n);
    if LongRunsBeforeRun(o, first, t, dir, noise)
      && (RunStart(o, last) && !ShortRun(o, last, noise) ==> o[last].direction == dir)
    {
      forall s | 0 <= s < n && RunStart(o, s) && Dist(first, s, n) < t + d && !ShortRun(o, s, noise)
        ensures o[s].direction == dir
      {
        VisitStep(o, first, last, t, s);
      }
    }
  }

  /** What the first half of `FilterEdgeNoise` remembers while it walks: how
      many long runs it has met (none or one), and the direction of that run. */
  datatype Seen = Seen(numFound: nat, directionOfFirst: Direction)

  /** The walk state after `t` steps from `first`: with nothing found every
      run passed was short; with one found, `longWitness` starts a long run
      running `directionOfFirst`, and so does every long run passed. */
  ghost predicate SeekState(o: Outline, first: nat, t: nat, seen: Seen, longWitness: nat,
                            noise: real)
    requires HasTurn(o) && first < |o|
  {
    && (seen.numFound == 0 || seen.numFound == 1)
    && (seen.numFound == 0 ==> NoLongRunBefore(o, first, t, noise))
    && (seen.numFound == 1 ==>
          && longWitness < |o| && RunStart(o, longWitness)
          && !ShortRun(o, longWitness, noise)
          && o[longWitness].direction == seen.directionOfFirst
          && LongRunsBeforeRun(o, first, t, seen.directionOfFirst, noise))
  }

  /** A lap that met no two long runs running different ways shows there are none. */
  lemma SeekDone(o: Outline, first: nat, seen: Seen, longWitness: nat, noise: real)
    requires HasTurn(o) && first < |o|
    requires SeekState(o, first, |o|, seen, longWitness, noise)
    ensures !LongRunsDisagree(o, noise)
  {
    if seen.numFound == 0 {
      assert NoLongRunBefore(o, first, |o|, noise);
    } else {
      assert LongRunsBeforeRun(o, first, |o|, seen.directionOfFirst, noise);
    }
  }

  /** One pass of the first half's loop: measure the run at `last`, note it
      when it is the first long run, and stop when it is a long run running
      another way than the first. */
  method SeekOneRun(o: Outline, first: nat, last: nat, ghost t: nat, seen: Seen, ghost longWitness: nat,
                    noise: real)
    returns (current: nat, seen': Seen, ghost longWitness': nat, stop: bool)
    requires HasTurn(o) && first < |o| && RunStart(o, first) && t < |o| && last == Fwd(first, t, |o|)
    requires RunStart(o, last)
    requires SeekState(o, first, t, seen, longWitness, noise)
    ensures current == NextDirectionChange(o, last)
    ensures t + NextDirectionChangeOffset(o, last) <= |o|
    ensures current == Fwd(first, t + NextDirectionChangeOffset(o, last), |o|)
    ensures stop ==> LongRunsDisagree(o, noise) && RunStart(o, last) && !ShortRun(o, last, noise)
    ensures !stop ==>
      SeekState(o, first, t + NextDirectionChangeOffset(o, last), seen', longWitness', noise)
  {
    WalkStaysInLap(o, first, last, t);
    NoLongRunAdvance(o, first, t, noise);
    LongRunsAdvance(o, first, t, seen.directionOfFirst, noise);
    LongRunsAdvance(o, first, t, o[last].direction, noise);
    current := NextDirectionChange(o, last);
    seen', longWitness', stop := seen, longWitness, false;
    if !BelowNoise(SquaredDistance(Position(o[current]), Position(o[last])), noise) {
      if seen.numFound == 0 {
        seen' := Seen(1, o[last].direction);
        longWitness' := last;
      } else if seen.directionOfFirst != o[last].direction {
        assert LongRunsDisagree(o, noise) by {
          assert RunStart(o, longWitness) && RunStart(o, last);
        }
        stop := true;
      }
    }
  }

  /** The first half of `FilterEdgeNoise`: walk the runs once, starting from
      the first direction change, remembering the direction of the first
      long run and stopping at the first long run running another way.  The
      walk ends with `current == last` exactly when it went all the way round;
      otherwise `last` starts a long run. */
  method SeekTwoLongRuns(o: Outline, noise: real) returns (current: nat, last: nat)
    requires HasTurn(o)
    ensures current < |o| && last < |o|
    ensures current == last <==> !LongRunsDisagree(o, noise)
    ensures current != last ==> RunStart(o, last) && !ShortRun(o, last, noise)
  {
    var n := |o|;
    var seen := Seen(0, North);
    ghost var longWitness := 0;
    var first := NextDirectionChange(o, 0);
    last := first;
    current := first;
    ghost var t := 0;
    var started := false;
    var stop := false;
    assert Fwd(first, 0, n) == first;
    while !started || last != first
      invariant t <= n && last == Fwd(first, t, n) && RunStart(o, last)
      invariant started <==> t > 0
      invariant started ==> ((last == first) <==> (t == n))
      invariant started ==> current == last
      invariant SeekState(o, first, t, seen, longWitness, noise)
      decreases n - t
    {
      ghost var d := NextDirectionChangeOffset(o, last);
      current, seen, longWitness, stop := SeekOneRun(o, first, last, t, seen, longWitness, noise);
      if stop {
        return;
      }
      t := t + d;
      last := current;
      started := true;
      if t < n {
        FwdFacts(first, t, n);
      }
    }
    SeekDone(o, first, seen, longWitness, noise);
  }

  /** Before the relabelling pass nothing is filtered yet. */
  lemma RelabelStart(o: Outline, first: nat, noise: real)
    requires HasTurn(o) && first < |o| && RunStart(o, first) && !ShortRun(o, first, noise)
    ensures RelabelledUpTo(o, o, first, first, 0, noise)
  {
    assert Fwd(first, 0, |o|) == first;
  }

  /** After a whole lap every run is filtered. */
  lemma RelabelDone(o: Outline, r: Outline, first: nat, noise: real)
    requires HasTurn(o) && first < |o|
    requires RelabelledUpTo(o, r, first, first, |o|, noise)
    ensures OnlyDirectionsChange(o, r)
    ensures Filtered(o, r, noise)
  {
  }

  /** One pass of the relabelling loop: find the next direction change and
      relabel the run up to it when it is short. */
  method RelabelOneRun(o: Outline, r: Outline, first: nat, last: nat, ghost t: nat, noise: real)
    returns (r': Outline, current: nat)
    requires HasTurn(o) && first < |o| && t < |o|
    requires RelabelledUpTo(o, r, first, last, t, noise)
    ensures current == NextDirectionChange(o, last)
    ensures RelabelledUpTo(o, r', first, current, t + NextDirectionChangeOffset(o, last), noise)
  {
    RelabelStepKeeps(o, r, first, t, noise);
    current := NextDirectionChange(r, last);
    var lengthSquared := SquaredDistance(Position(r[current]), Position(r[last]));
    assert Position(r[current]) == Position(o[current]) && Position(r[last]) == Position(o[last]) by {
      assert r[current] == o[current].(direction := r[current].direction,
        previousDirection := r[current].previousDirection);
      assert r[last] == o[last].(direction := r[last].direction, previousDirection := r[last].previousDirection);
    }
    r' := r;
    if BelowNoise(lengthSquared, noise) {
      r' := ChangeDirection(r, last, current, r[last].previousDirection);
    }
  }

  /** The relabelling loop from its second pass on: stop on coming back to
      `first`, otherwise relabel one more run and go on. */
  method RelabelRest(o: Outline, r: Outline, first: nat, last: nat, ghost t: nat, noise: real)
    returns (r': Outline)
    requires HasTurn(o) && first < |o| && 0 < t
    requires RelabelledUpTo(o, r, first, last, t, noise)
    requires last == first <==> t == |o|
    ensures OnlyDirectionsChange(o, r')
    ensures Filtered(o, r', noise)
    decreases |o| - t
  {
    if last == first {
      RelabelDone(o, r, first, noise);
      return r;
    }
    var r1, current := RelabelOneRun(o, r, first, last, t, noise);
    ghost var t' := t + NextDirectionChangeOffset(o, last);
    LapEnd(first, t', |o|, current);
    r' := RelabelRest(o, r1, first, current, t', noise);
  }

  /** The second half of `FilterEdgeNoise`: walk once round from the long run
      at `first`, relabelling every short run with the direction recorded as
      arriving at its start.  The source's do-while loop is the first pass
      here followed by `RelabelRest`. */
  method RelabelShortRuns(o: Outline, first: nat, noise: real) returns (r: Outline)
    requires HasTurn(o) && first < |o| && RunStart(o, first) && !ShortRun(o, first, noise)
    ensures OnlyDirectionsChange(o, r)
    ensures Filtered(o, r, noise)
  {
    RelabelStart(o, first, noise);
    var r1, current := RelabelOneRun(o, o, first, first, 0, noise);
    ghost var t := NextDirectionChangeOffset(o, first);
    if t < |o| {
      FwdFacts(first, t, |o|);
    }
    r := RelabelRest(o, r1, first, current, t, noise);
  }

  /** What the filter promises of an outline whose previous directions are
      those of the preceding points: a short run ends up running the way the
      run before it, as relabelled, runs. */
  lemma ShortRunJoinsPrevious(o: Outline, r: Outline, s: nat, noise: real)
    requires PrevConsistent(o) && HasTurn(o) && |r| == |o|
    requires Filtered(o, r, noise)
    requires s < |o| && RunStart(o, s) && ShortRun(o, s, noise)
    ensures r[s].direction == r[Pred(s, |o|)].direction
  {
    var n := |o|;
    var b := RunBefore(o, s, s, 0);
    var d := NextDirectionChangeOffset(o, b);
    FwdFacts(b, d - 1, n);
    assert Pred(s, n) == Fwd(b, d - 1, n);
    assert RunFiltered(o, r, b, noise);
    assert RunFiltered(o, r, s, noise);
    assert Fwd(s, 0, n) == s;
    if d > 1 {
      assert o[Pred(s, n)].direction == o[b].direction;
    }
  }

  /** `FilterEdgeNoise`: leave a degenerate outline alone, and an outline
      without two long runs running different ways; otherwise relabel every
      short run, starting from the second long run found. */
  method FilterEdgeNoise(o: Outline, noise: real) returns (r: Outline)
    requires !Degenerate(o) ==> HasTurn(o)
    ensures OnlyDirectionsChange(o, r)
    ensures Degenerate(o) ==> r == o
    ensures !Degenerate(o) && !LongRunsDisagree(o, noise) ==> r == o
    ensures !Degenerate(o) && LongRunsDisagree(o, noise) ==> Filtered(o, r, noise)
  {
    r := o;
    if |o| < 2 {
      return;
    }
    var current, last := SeekTwoLongRuns(o, noise);
    if current == last {
      return;
    }
    r := RelabelShortRuns(o, last, noise);
  }
}
