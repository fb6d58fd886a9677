/** Micro-feature outlines: a circular sequence of edge points, each carrying
    the compass direction of the edge leaving it, the direction of the edge
    arriving at it, a hidden flag and an extremity mark.  Index `k` stands for
    a position in the circular list (see `Circular`).  Float
    coordinates are modelled as reals. */
module MfOutline {
  import opened Wrappers
  import opened Circular
  import IntProto

  /** The largest single-precision float, used as the slope of vertical edges. */
  const MAX_FLOAT32: real := 340282346638528859811704183484516925440.0

  datatype Direction = North | NorthEast | East | SouthEast | South | SouthWest | West | NorthWest {
    predicate IsDiagonal() {
      this == NorthEast || this == SouthEast || this == SouthWest || this == NorthWest
    }
  }

  datatype EdgePt = EdgePt(
    x: real, y: real,
    slope: real,
    direction: Direction,
    previousDirection: Direction,
    hidden: bool,
    extremity: bool)

  type Outline = seq<EdgePt>

  /** `DegenerateOutline`: a null outline or a single point. */
  predicate Degenerate(o: Outline) {
    |o| < 2
  }

  /** A point where the direction changes: its predecessor runs another way. */
  predicate RunStart(o: Outline, k: nat)
    requires k < |o|
  {
    o[k].direction != o[Pred(k, |o|)].direction
  }

  /** At least two points of the outline run in different directions. */
  predicate HasTurn(o: Outline) {
    exists i, j :: 0 <= i < |o| && 0 <= j < |o| && o[i].direction != o[j].direction
  }

  /** Every point's previous direction is its predecessor's direction. */
  predicate PrevConsistent(o: Outline) {
    forall k :: 0 <= k < |o| ==> o[k].previousDirection == o[Pred(k, |o|)].direction
  }

  /** Same position, hidden flag and mark. */
  predicate SamePlace(a: EdgePt, b: EdgePt) {
    a.x == b.x && a.y == b.y && a.hidden == b.hidden && a.extremity == b.extremity
  }

  // ---------------------------------------------------------------------------
  // Directions

  function Abs(r: real): real {
    if r < 0.0 then -r else r
  }

  datatype Heading = Heading(slope: real, direction: Direction)

  lemma QuotientSign(dy: real, dx: real)
    requires dx != 0.0
    ensures dy / dx == 0.0 <==> dy == 0.0
    ensures (dx > 0.0 && dy > 0.0) || (dx < 0.0 && dy < 0.0) ==> dy / dx > 0.0
    ensures (dx > 0.0 && dy < 0.0) || (dx < 0.0 && dy > 0.0) ==> dy / dx < 0.0
  {
    var q := dy / dx;
    assert q * dx == dy;
  }

  /** The slope and compass direction of the edge `(dx, dy)`, by the nested
      tests of `ComputeDirection`: vertical edges point north or south; other
      edges snap to east or west when flat, to north or south when steep, and
      are diagonal in between. */
  function ClassifyEdge(dx: real, dy: real, minSlope: real, maxSlope: real): (h: Heading)
    ensures dx == 0.0 ==> h.direction == (if dy < 0.0 then South else North)
    ensures dx == 0.0 ==> h.slope == (if dy < 0.0 then -MAX_FLOAT32 else MAX_FLOAT32)
    ensures dx != 0.0 ==> h.slope == dy / dx
    ensures dx > 0.0 ==> h.direction in {North, NorthEast, East, SouthEast, South}
    ensures dx < 0.0 ==> h.direction in {North, NorthWest, West, SouthWest, South}
    ensures h.direction.IsDiagonal() <==> dx != 0.0 && minSlope < Abs(h.slope) < maxSlope
    ensures h.direction == East || h.direction == West <==> dx != 0.0 && Abs(h.slope) <= minSlope
  {
    if dx == 0.0 then
      if dy < 0.0 then Heading(-MAX_FLOAT32, South) else Heading(MAX_FLOAT32, North)
    else
      var s := dy / dx;
      QuotientSign(dy, dx);
      if dx > 0.0 then
        if dy > 0.0 then
          if s > minSlope then
            if s < maxSlope then Heading(s, NorthEast) else Heading(s, North)
          else Heading(s, East)
        else if s < -minSlope then
          if s > -maxSlope then Heading(s, SouthEast) else Heading(s, South)
        else Heading(s, East)
      else if dy > 0.0 then
        if s < -minSlope then
          if s > -maxSlope then Heading(s, NorthWest) else Heading(s, North)
        else Heading(s, West)
      else if s > minSlope then
        if s < maxSlope then Heading(s, SouthWest) else Heading(s, South)
      else Heading(s, West)
  }

  /** Reference compass: flat edges are east/west, steep ones north/south by
      the sign of `dy`, and the rest diagonal by the signs of `dx` and `dy`. */
  function Compass(dx: real, dy: real, minSlope: real, maxSlope: real): Direction {
    if dx == 0.0 then (if dy < 0.0 then South else North)
    else if Abs(dy / dx) <= minSlope then (if dx > 0.0 then East else West)
    else if Abs(dy / dx) < maxSlope then
      (if dx > 0.0 then (if dy > 0.0 then NorthEast else SouthEast)
       else (if dy > 0.0 then NorthWest else SouthWest))
    else (if dy > 0.0 then North else South)
  }

  /** The nested tests agree with the reference compass on every edge. */
  lemma ClassifyEdgeIsCompass(dx: real, dy: real, minSlope: real, maxSlope: real)
    ensures ClassifyEdge(dx, dy, minSlope, maxSlope).direction == Compass(dx, dy, minSlope, maxSlope)
  {
    if dx != 0.0 {
      QuotientSign(dy, dx);
    }
  }

  /** `ComputeDirection`: give `start` the slope and direction of the edge to
      `finish`, and record that direction as `finish`'s previous direction. */
  function ComputeDirection(start: EdgePt, finish: EdgePt, minSlope: real, maxSlope: real): (r: (EdgePt, EdgePt))
    ensures var h := ClassifyEdge(finish.x - start.x, finish.y - start.y, minSlope, maxSlope);
      && r.0 == start.(slope := h.slope, direction := h.direction)
      && r.1 == finish.(previousDirection := h.direction)
    ensures r.1.previousDirection == r.0.direction
  {
    var h := ClassifyEdge(finish.x - start.x, finish.y - start.y, minSlope, maxSlope);
    (start.(slope := h.slope, direction := h.direction), finish.(previousDirection := h.direction))
  }

  /** The heading of the edge leaving point `k`. */
  function EdgeHeading(o: Outline, k: nat, minSlope: real, maxSlope: real): Heading
    requires k < |o|
  {
    var n := Succ(k, |o|);
    ClassifyEdge(o[n].x - o[k].x, o[n].y - o[k].y, minSlope, maxSlope)
  }

  /** `FindDirectionChanges`: walk every edge of a non-degenerate outline once,
      from the first point round to the first point again. */
  method FindDirectionChanges(o: Outline, minSlope: real, maxSlope: real) returns (r: Outline)
    ensures |r| == |o|
    ensures Degenerate(o) ==> r == o
    ensures !Degenerate(o) ==> forall k :: 0 <= k < |o| ==>
      && SamePlace(r[k], o[k])
      && r[k].direction == EdgeHeading(o, k, minSlope, maxSlope).direction
      && r[k].slope == EdgeHeading(o, k, minSlope, maxSlope).slope
    ensures !Degenerate(o) ==> PrevConsistent(r)
  {
    r := o;
    if |o| < 2 {
      return;
    }
    var n := |o|;
    ghost var hs := seq(n, k requires 0 <= k < n => EdgeHeading(o, k, minSlope, maxSlope));
    var i := 0;
    while i < n
      invariant 0 <= i <= n
      invariant DirectionsFoundUpTo(o, r, hs, i)
    {
      var next := Succ(i, n);
      var pair := ComputeDirection(r[i], r[next], minSlope, maxSlope);
      ComputedHeading(o, r, hs, i, minSlope, maxSlope);
      DirectionFoundStep(o, r, hs, i, pair);
      r := r[i := pair.0][next := pair.1];
      i := i + 1;
    }
    DirectionsAllFound(o, r, hs, minSlope, maxSlope);
  }

  /** The state of `FindDirectionChanges` after the edges leaving points
      `0 .. i - 1` have been classified; `hs` holds every edge's heading. */
  ghost predicate DirectionsFoundUpTo(o: Outline, r: Outline, hs: seq<Heading>, i: nat) {
    && |r| == |o| == |hs| && i <= |o|
    && (forall k :: 0 <= k < |o| ==> SamePlace(r[k], o[k]))
    && (forall k :: 0 <= k < i ==> r[k].direction == hs[k].direction && r[k].slope == hs[k].slope)
    && (forall k :: 0 < k <= i && k < |o| ==> r[k].previousDirection == hs[k - 1].direction)
    && (i == |o| > 0 ==> r[0].previousDirection == hs[|o| - 1].direction)
  }

  lemma DirectionsAllFound(o: Outline, r: Outline, hs: seq<Heading>, minSlope: real, maxSlope: real)
    requires |o| >= 2
    requires hs == seq(|o|, k requires 0 <= k < |o| => EdgeHeading(o, k, minSlope, maxSlope))
    requires DirectionsFoundUpTo(o, r, hs, |o|)
    ensures forall k :: 0 <= k < |o| ==>
      && SamePlace(r[k], o[k])
      && r[k].direction == EdgeHeading(o, k, minSlope, maxSlope).direction
      && r[k].slope == EdgeHeading(o, k, minSlope, maxSlope).slope
    ensures PrevConsistent(r)
  {
    forall k | 0 <= k < |o|
      ensures r[k].previousDirection == r[Pred(k, |o|)].direction
    {
      if k == 0 {
        assert Pred(k, |o|) == |o| - 1;
      } else {
        assert Pred(k, |o|) == k - 1;
      }
    }
  }

  /** `ComputeDirection` on a point and its successor, both still in place,
      gives the heading of the edge between them. */
  lemma ComputedHeading(o: Outline, r: Outline, hs: seq<Heading>, i: nat, minSlope: real, maxSlope: real)
    requires |o| >= 2 && i < |o| == |r|
    requires hs == seq(|o|, k requires 0 <= k < |o| => EdgeHeading(o, k, minSlope, maxSlope))
    requires SamePlace(r[i], o[i]) && SamePlace(r[Succ(i, |o|)], o[Succ(i, |o|)])
    ensures var pair := ComputeDirection(r[i], r[Succ(i, |o|)], minSlope, maxSlope);
      && pair.0 == r[i].(slope := hs[i].slope, direction := hs[i].direction)
      && pair.1 == r[Succ(i, |o|)].(previousDirection := hs[i].direction)
  {
    var next := Succ(i, |o|);
    var dx, dy := r[next].x - r[i].x, r[next].y - r[i].y;
    assert dx == o[next].x - o[i].x && dy == o[next].y - o[i].y;
    assert hs[i] == EdgeHeading(o, i, minSlope, maxSlope) == ClassifyEdge(dx, dy, minSlope, maxSlope);
  }

  lemma DirectionFoundStep(o: Outline, r: Outline, hs: seq<Heading>, i: nat, pair: (EdgePt, EdgePt))
    requires |o| >= 2 && i < |o|
    requires DirectionsFoundUpTo(o, r, hs, i)
    requires pair.0 == r[i].(slope := hs[i].slope, direction := hs[i].direction)
    requires pair.1 == r[Succ(i, |o|)].(previousDirection := hs[i].direction)
    ensures DirectionsFoundUpTo(o, r[i := pair.0][Succ(i, |o|) := pair.1], hs, i + 1)
  {
    var n := |o|;
    var next := Succ(i, n);
    var r' := r[i := pair.0][next := pair.1];
    assert next != i;
    forall k | 0 <= k <= i
      ensures r'[k].direction == hs[k].direction && r'[k].slope == hs[k].slope
    {
      if k == next {
        assert r'[k].direction == r[k].direction && r'[k].slope == r[k].slope;
      }
    }
    forall k | 0 < k <= i + 1 && k < n
      ensures r'[k].previousDirection == hs[k - 1].direction
    {
      if k == next {
        assert k == i + 1;
      }
    }
  }

  // ---------------------------------------------------------------------------
  // Searching round the outline

  /** Some point at offset `d .. n - 1` from `k` runs another way than `k`. */
  predicate TurnAhead(o: Outline, k: nat, d: nat)
    requires k < |o|
  {
    exists e :: d <= e < |o| && o[Fwd(k, e, |o|)].direction != o[k].direction
  }

  lemma HasTurnAhead(o: Outline, k: nat)
    requires k < |o| && HasTurn(o)
    ensures TurnAhead(o, k, 1)
  {
    var i, j :| 0 <= i < |o| && 0 <= j < |o| && o[i].direction != o[j].direction;
    var other := if o[i].direction != o[k].direction then i else j;
    assert Fwd(k, Dist(k, other, |o|), |o|) == other;
  }

  function NdcFrom(o: Outline, k: nat, d: nat): (e: nat)
    requires k < |o| && 1 <= d && TurnAhead(o, k, d)
    decreases |o| - d
    ensures d <= e < |o|
    ensures o[Fwd(k, e, |o|)].direction != o[k].direction
    ensures forall f :: d <= f < e ==> o[Fwd(k, f, |o|)].direction == o[k].direction
  {
    if o[Fwd(k, d, |o|)].direction != o[k].direction then d
    else NdcFrom(o, k, d + 1)
  }

  /** Steps from `k` to the next point whose direction differs from `k`'s. */
  function NextDirectionChangeOffset(o: Outline, k: nat): (d: nat)
    requires k < |o| && HasTurn(o)
    ensures 1 <= d < |o|
    ensures o[Fwd(k, d, |o|)].direction != o[k].direction
    ensures forall f :: 1 <= f < d ==> o[Fwd(k, f, |o|)].direction == o[k].direction
  {
    HasTurnAhead(o, k);
    NdcFrom(o, k, 1)
  }

  /** `NextDirectionChange`: the first point strictly after `k` whose direction
      differs from `k`'s.  The search would not end on an outline running one
      way throughout, so such a point must exist. */
  function NextDirectionChange(o: Outline, k: nat): (j: nat)
    requires k < |o| && HasTurn(o)
    ensures j < |o| && j != k
    ensures o[j].direction != o[k].direction
    ensures RunStart(o, j)
    ensures forall f :: 1 <= f < Dist(k, j, |o|) ==> o[Fwd(k, f, |o|)].direction == o[k].direction
  {
    var d := NextDirectionChangeOffset(o, k);
    FwdFacts(k, d - 1, |o|);
    Fwd(k, d, |o|)
  }

  /** Searching from a run start, no run start is passed over: the points
      strictly between `k` and the next direction change are not run starts. */
  lemma NoRunStartSkipped(o: Outline, k: nat, f: nat)
    requires k < |o| && HasTurn(o)
    requires 1 <= f < NextDirectionChangeOffset(o, k)
    ensures !RunStart(o, Fwd(k, f, |o|))
  {
    FwdFacts(k, f - 1, |o|);
  }

  predicate ExtremityAhead(o: Outline, k: nat, d: nat)
    requires k < |o|
  {
    exists e :: d <= e <= |o| && o[Fwd(k, e, |o|)].extremity
  }

  function ExtremityFrom(o: Outline, k: nat, d: nat): (e: nat)
    requires k < |o| && 1 <= d && ExtremityAhead(o, k, d)
    decreases |o| - d
    ensures d <= e <= |o|
    ensures o[Fwd(k, e, |o|)].extremity
    ensures forall f :: d <= f < e ==> !o[Fwd(k, f, |o|)].extremity
  {
    if o[Fwd(k, d, |o|)].extremity then d
    else ExtremityFrom(o, k, d + 1)
  }

  /** `NextExtremity`: the first marked point after `k`, which is `k` itself
      only when no other point is marked.  The search would not end on an
      outline without marks, so one must exist. */
  function NextExtremity(o: Outline, k: nat): (j: nat)
    requires k < |o|
    requires exists i :: 0 <= i < |o| && o[i].extremity
    ensures j < |o| && o[j].extremity
    ensures j == k ==> forall i :: 0 <= i < |o| && i != k ==> !o[i].extremity
    ensures j != k ==> forall f :: 1 <= f < Dist(k, j, |o|) ==> !o[Fwd(k, f, |o|)].extremity
  {
    var i :| 0 <= i < |o| && o[i].extremity;
    var di := if i == k then |o| else Dist(k, i, |o|);
    assert Fwd(k, di, |o|) == i;
    var e := ExtremityFrom(o, k, 1);
    var j := Fwd(k, e, |o|);
    if j == k then
      assert e == |o|;
      assert forall i :: 0 <= i < |o| && i != k ==> !o[i].extremity by {
        forall i | 0 <= i < |o| && i != k ensures !o[i].extremity {
          assert Fwd(k, Dist(k, i, |o|), |o|) == i;
        }
      }
      j
    else
      assert Dist(k, j, |o|) == e;
      j
  }

  // ---------------------------------------------------------------------------
  // Rewriting directions

  /** Points from `start` up to but excluding `end`, going forwards. */
  predicate InSpan(start: nat, end: nat, k: nat, n: nat)
    requires start < n && end < n && k < n
  {
    Dist(start, k, n) < Dist(start, end, n)
  }

  /** Reference definition of a direction rewrite: the points from `start`
      up to but excluding `end` take `dir`, and `end` records `dir` as the
      direction arriving at it. */
  function Relabel(o: Outline, start: nat, end: nat, dir: Direction): (r: Outline)
    requires start < |o| && end < |o|
    ensures |r| == |o|
  {
    seq(|o|, k requires 0 <= k < |o| =>
      if k == end then o[k].(previousDirection := dir)
      else if InSpan(start, end, k, |o|) then o[k].(direction := dir)
      else o[k])
  }

  /** `ChangeDirection`: every point from `start` up to but excluding `end`
      takes `dir`, and `end` records `dir` as its previous direction. */
  method ChangeDirection(o: Outline, start: nat, end: nat, dir: Direction) returns (r: Outline)
    requires start < |o| && end < |o|
    ensures |r| == |o|
    ensures forall k :: 0 <= k < |o| && InSpan(start, end, k, |o|) && k != end ==>
      r[k] == o[k].(direction := dir)
    ensures r[end] == o[end].(previousDirection := dir)
    ensures forall k :: 0 <= k < |o| && !InSpan(start, end, k, |o|) && k != end ==> r[k] == o[k]
    ensures r == Relabel(o, start, end, dir)
  {
    var n := |o|;
    r := o;
    var current := start;
    ghost var t := 0;
    while current != end
      invariant |r| == n && t <= Dist(start, end, n)
      invariant current == Fwd(start, t, n)
      invariant forall k :: 0 <= k < n && Dist(start, k, n) < t ==> r[k] == o[k].(direction := dir)
      invariant forall k :: 0 <= k < n && Dist(start, k, n) >= t ==> r[k] == o[k]
      decreases Dist(start, end, n) - t
    {
      FwdFacts(start, t, n);
      r := r[current := r[current].(direction := dir)];
      current := Succ(current, n);
      t := t + 1;
    }
    r := r[end := r[end].(previousDirection := dir)];
  }

  /** Mark `k` as an extremity. */
  function Mark(o: Outline, k: nat): (r: Outline)
    requires k < |o|
    ensures |r| == |o| && r[k] == o[k].(extremity := true)
    ensures forall i :: 0 <= i < |o| && i != k ==> r[i] == o[i]
  {
    o[k := o[k].(extremity := true)]
  }

  lemma NdcReadsOnlyDirections(o1: Outline, o2: Outline, k: nat)
    requires |o1| == |o2| && k < |o1| && HasTurn(o1)
    requires forall i :: 0 <= i < |o1| ==> o1[i].direction == o2[i].direction
    ensures HasTurn(o2)
    ensures NextDirectionChangeOffset(o1, k) == NextDirectionChangeOffset(o2, k)
  {
    var i, j :| 0 <= i < |o1| && 0 <= j < |o1| && o1[i].direction != o1[j].direction;
    assert o2[i].direction != o2[j].direction;
  }

  /** Walking by direction changes from a run start never steps past another
      run start `first`. */
  lemma NdcStopsAtRunStart(o: Outline, last: nat, first: nat)
    requires last < |o| && first < |o| && HasTurn(o)
    requires RunStart(o, first) && first != last
    ensures NextDirectionChangeOffset(o, last) <= Dist(last, first, |o|)
  {
    var d := NextDirectionChangeOffset(o, last);
    var g := Dist(last, first, |o|);
    if d > g {
      NoRunStartSkipped(o, last, g);
    }
  }

  /** `i` is a run start passed within `t` steps of the run start `first`. */
  ghost predicate PassedRunStart(o: Outline, first: nat, t: nat, i: nat)
    requires first < |o| && i < |o|
  {
    RunStart(o, i) && ((0 < Dist(first, i, |o|) <= t) || (i == first && t == |o|))
  }

  /** The state of `MarkDirectionChanges` after walking `t` steps from the
      run start `first`: exactly the run starts passed so far are marked. */
  ghost predicate MarkedUpTo(o: Outline, r: Outline, first: nat, t: nat)
    requires first < |o|
  {
    && |r| == |o| && t <= |o|
    && forall i {:trigger r[i]} :: 0 <= i < |o| ==>
      r[i] == o[i].(extremity := o[i].extremity || PassedRunStart(o, first, t, i))
  }

  /** From the run start `last`, `t` steps after `first`, the next direction
      change lies at most back at `first`. */
  lemma WalkStaysInLap(o: Outline, first: nat, last: nat, t: nat)
    requires HasTurn(o) && first < |o| && RunStart(o, first)
    requires t < |o| && last == Fwd(first, t, |o|)
    ensures t + NextDirectionChangeOffset(o, last) <= |o|
    ensures Fwd(first, t + NextDirectionChangeOffset(o, last), |o|) == NextDirectionChange(o, last)
  {
    var n := |o|;
    if t > 0 {
      FwdFacts(first, t, n);
      NdcStopsAtRunStart(o, last, first);
      assert Dist(last, first, n) == n - t;
    }
  }

  /** The run start whose run ends at the run start `first`, found by walking
      run by run from `last`, `t` steps after `first`, until the next
      direction change comes back round to `first`. */
  function RunBefore(o: Outline, first: nat, last: nat, t: nat): (s: nat)
    requires HasTurn(o) && first < |o| && RunStart(o, first)
    requires t < |o| && last == Fwd(first, t, |o|) && RunStart(o, last)
    decreases |o| - t
    ensures s < |o| && RunStart(o, s) && NextDirectionChange(o, s) == first
  {
    WalkStaysInLap(o, first, last, t);
    var d := NextDirectionChangeOffset(o, last);
    if t + d == |o| then last
    else RunBefore(o, first, NextDirectionChange(o, last), t + d)
  }

  /** One step of the walk adds exactly the run start it arrives at. */
  lemma PassedRunStartStep(o: Outline, first: nat, last: nat, t: nat, i: nat)
    requires HasTurn(o) && first < |o| && RunStart(o, first) && i < |o|
    requires t < |o| && last == Fwd(first, t, |o|)
    requires t + NextDirectionChangeOffset(o, last) <= |o|
    requires Fwd(first, t + NextDirectionChangeOffset(o, last), |o|) == NextDirectionChange(o, last)
    ensures PassedRunStart(o, first, t + NextDirectionChangeOffset(o, last), i)
      <==> PassedRunStart(o, first, t, i) || i == NextDirectionChange(o, last)
  {
    var n := |o|;
    var d := NextDirectionChangeOffset(o, last);
    var g := Dist(first, i, n);
    if t < g < t + d {
      FwdFacts(first, g, n);
      NoRunStartSkipped(o, last, g - t);
    } else if t + d < n {
      FwdFacts(first, t + d, n);
    }
  }

  /** One pass of the marking loop keeps `MarkedUpTo`. */
  lemma MarkStep(o: Outline, r: Outline, first: nat, last: nat, t: nat)
    requires HasTurn(o) && first < |o| && RunStart(o, first)
    requires t < |o| && last == Fwd(first, t, |o|)
    requires MarkedUpTo(o, r, first, t)
    ensures t + NextDirectionChangeOffset(o, last) <= |o|
    ensures Fwd(first, t + NextDirectionChangeOffset(o, last), |o|) == NextDirectionChange(o, last)
    ensures MarkedUpTo(o, Mark(r, NextDirectionChange(o, last)), first, t + NextDirectionChangeOffset(o, last))
  {
    WalkStaysInLap(o, first, last, t);
    forall i | 0 <= i < |o| {
      PassedRunStartStep(o, first, last, t, i);
    }
  }

  /** `MarkDirectionChanges`: mark every point where the direction changes. */
  method MarkDirectionChanges(o: Outline) returns (r: Outline)
    requires !Degenerate(o) ==> HasTurn(o)
    ensures |r| == |o|
    ensures Degenerate(o) ==> r == o
    ensures forall k :: 0 <= k < |o| ==>
      r[k] == o[k].(extremity := o[k].extremity || (!Degenerate(o) && RunStart(o, k)))
  {
    r := o;
    if |o| < 2 {
      return;
    }
    var n := |o|;
    var first := NextDirectionChange(o, 0);
    var last := first;
    ghost var t := 0;
    assert MarkedUpTo(o, r, first, 0);
    // do { ... } while (last != first): the loop condition is tested after
    // the first pass, which always moves away from `first`.
    var started := false;
    while !started || last != first
      invariant t <= n && last == Fwd(first, t, n)
      invariant started <==> t > 0
      invariant started ==> ((last == first) <==> (t == n))
      invariant MarkedUpTo(o, r, first, t)
      decreases n - t
    {
      MarkedKeepsDirections(o, r, first, t, last);
      MarkStep(o, r, first, last, t);
      var current := NextDirectionChange(r, last);
      ghost var d := NextDirectionChangeOffset(o, last);
      r := Mark(r, current);
      LapEnd(first, t + d, n, current);
      t := t + d;
      last := current;
      started := true;
    }
    MarkedAll(o, r, first);
  }

  /** Marking leaves directions alone, so the walk reads the same turns. */
  lemma MarkedKeepsDirections(o: Outline, r: Outline, first: nat, t: nat, k: nat)
    requires HasTurn(o) && first < |o| && k < |o|
    requires MarkedUpTo(o, r, first, t)
    ensures HasTurn(r)
    ensures NextDirectionChangeOffset(r, k) == NextDirectionChangeOffset(o, k)
    ensures NextDirectionChange(r, k) == NextDirectionChange(o, k)
  {
    assert forall i :: 0 <= i < |o| ==> o[i].direction == r[i].direction;
    NdcReadsOnlyDirections(o, r, k);
  }

  /** After a whole lap every run start is marked. */
  lemma MarkedAll(o: Outline, r: Outline, first: nat)
    requires first < |o| && MarkedUpTo(o, r, first, |o|)
    ensures forall k :: 0 <= k < |o| ==> r[k] == o[k].(extremity := o[k].extremity || RunStart(o, k))
  {
    forall k | 0 <= k < |o|
      ensures PassedRunStart(o, first, |o|, k) == RunStart(o, k)
    {
    }
  }

  // ---------------------------------------------------------------------------
  // Normalisation

  /** `NormalizeOutline` with the ascender and descender stretch both 1.0: the
      result of the stretch branch is the deskewed value itself. */
  function StretchY(y: real, normalXHeight: real, normalBaseline: real): (r: real)
    ensures r == y
  {
    var ascStretch := 1.0;
    var descStretch := 1.0;
    if y > normalXHeight then normalXHeight + (y - normalXHeight) / ascStretch
    else if y < normalBaseline then normalBaseline + (y - normalBaseline) / descStretch
    else y
  }

  /** `NormalizeOutline`: deskew each point down to the baseline, move x = 0
      to `xOrigin` and scale both axes.  The scale factor and the baseline are
      supplied by the caller. */
  function NormalizeOutline(o: Outline, scale: real, baselineAt: real -> real, xOrigin: real,
                            normalXHeight: real, normalBaseline: real): (r: Outline)
    ensures |r| == |o|
    ensures forall k :: 0 <= k < |o| ==>
      && r[k].x == scale * (o[k].x - xOrigin)
      && r[k].y == scale * (o[k].y - baselineAt(o[k].x))
      && r[k] == o[k].(x := r[k].x, y := r[k].y)
  {
    seq(|o|, k requires 0 <= k < |o| =>
      NormalizePoint(o[k], scale, baselineAt, xOrigin, normalXHeight, normalBaseline))
  }

  function NormalizePoint(p: EdgePt, scale: real, baselineAt: real -> real, xOrigin: real,
                          normalXHeight: real, normalBaseline: real): (q: EdgePt)
    ensures q == p.(x := scale * (p.x - xOrigin), y := scale * (p.y - baselineAt(p.x)))
  {
    p.(y := StretchY(scale * (p.y - baselineAt(p.x)), normalXHeight, normalBaseline),
       x := scale * (p.x - xOrigin))
  }

  /** With a non-zero scale, baseline normalisation loses nothing: every point
      can be recovered from its image. */
  lemma NormalizeOutlineInvertible(o: Outline, scale: real, baselineAt: real -> real, xOrigin: real,
                                   normalXHeight: real, normalBaseline: real, k: nat)
    requires scale != 0.0 && k < |o|
    ensures var p := NormalizeOutline(o, scale, baselineAt, xOrigin, normalXHeight, normalBaseline)[k];
      var x := p.x / scale + xOrigin;
      && x == o[k].x
      && p.y / scale + baselineAt(x) == o[k].y
  {
    var p := NormalizeOutline(o, scale, baselineAt, xOrigin, normalXHeight, normalBaseline)[k];
    assert p.x / scale == o[k].x - xOrigin;
    assert p.y / scale == o[k].y - baselineAt(o[k].x);
  }

  /** `CharNormalizeOutline`: translate to the centre and scale each axis. */
  function CharNormalizeOutline(o: Outline, xCenter: real, yCenter: real, xScale: real, yScale: real): (r: Outline)
    ensures |r| == |o|
    ensures forall k :: 0 <= k < |o| ==>
      r[k] == o[k].(x := (o[k].x - xCenter) * xScale, y := (o[k].y - yCenter) * yScale)
  {
    seq(|o|, k requires 0 <= k < |o| =>
      o[k].(x := (o[k].x - xCenter) * xScale, y := (o[k].y - yCenter) * yScale))
  }

  /** Character normalisation with non-zero scales is undone by the inverse
      normalisation. */
  lemma CharNormalizeRoundTrip(o: Outline, xCenter: real, yCenter: real, xScale: real, yScale: real)
    requires xScale != 0.0 && yScale != 0.0
    ensures var back := CharNormalizeOutline(
        CharNormalizeOutline(o, xCenter, yCenter, xScale, yScale),
        -xCenter * xScale, -yCenter * yScale, 1.0 / xScale, 1.0 / yScale);
      back == o
  {
    var fwd := CharNormalizeOutline(o, xCenter, yCenter, xScale, yScale);
    var back := CharNormalizeOutline(fwd, -xCenter * xScale, -yCenter * yScale, 1.0 / xScale, 1.0 / yScale);
    forall k | 0 <= k < |o| ensures back[k] == o[k] {
      assert back[k].x == (fwd[k].x + xCenter * xScale) * (1.0 / xScale);
      assert fwd[k].x + xCenter * xScale == o[k].x * xScale;
      assert back[k].y == (fwd[k].y + yCenter * yScale) * (1.0 / yScale);
      assert fwd[k].y + yCenter * yScale == o[k].y * yScale;
    }
  }

  /** The tunable bounds of character normalisation. */
  datatype NormKnobs = NormKnobs(
    charNormRange: real,
    minNormScaleX: real, maxNormScaleX: real,
    minNormScaleY: real, maxNormScaleY: real)

  const DefaultKnobs: NormKnobs := NormKnobs(0.2, 0.0, 0.325, 0.0, 0.325)

  /** The clamped per-pixel sizes of the character-mode branch of
      `NormalizeOutlines`, before they are inverted. */
  function ClampScales(baselineScale: real, rx: real, ry: real, knobs: NormKnobs): (r: (real, real))
    ensures r.1 >= knobs.minNormScaleY
    ensures r.1 >= baselineScale * rx
    ensures r.1 == baselineScale * rx || r.1 == knobs.minNormScaleY
    ensures knobs.minNormScaleX <= knobs.maxNormScaleX ==> r.0 >= knobs.minNormScaleX
    ensures r.1 <= knobs.maxNormScaleY ==> r.0 <= knobs.maxNormScaleX
    ensures r.1 > knobs.maxNormScaleY ==> r.0 >= baselineScale * ry && r.0 >= knobs.minNormScaleX
    ensures r.0 == baselineScale * ry || r.0 == knobs.minNormScaleX || r.0 == knobs.maxNormScaleX
    ensures var m := if baselineScale * ry < knobs.minNormScaleX then knobs.minNormScaleX else baselineScale * ry;
      (r.1 > knobs.maxNormScaleY || m <= knobs.maxNormScaleX ==> r.0 == m)
      && (r.1 <= knobs.maxNormScaleY && m > knobs.maxNormScaleX ==> r.0 == knobs.maxNormScaleX)
  {
    var xs := baselineScale * ry;
    var ys := baselineScale * rx;
    var xs := if xs < knobs.minNormScaleX then knobs.minNormScaleX else xs;
    var ys := if ys < knobs.minNormScaleY then knobs.minNormScaleY else ys;
    var xs := if xs > knobs.maxNormScaleX && ys <= knobs.maxNormScaleY then knobs.maxNormScaleX else xs;
    (xs, ys)
  }

  /** Clamping is a clip to the knobs' bounds: a size already within its
      bounds is kept, and, unless the height had to exceed its maximum, the
      width ends within its bounds. */
  lemma ClampKeepsInRange(baselineScale: real, rx: real, ry: real, knobs: NormKnobs)
    requires knobs.minNormScaleX <= knobs.maxNormScaleX
    ensures var r := ClampScales(baselineScale, rx, ry, knobs);
      && (r.1 <= knobs.maxNormScaleY ==> knobs.minNormScaleX <= r.0 <= knobs.maxNormScaleX)
      && (knobs.minNormScaleX <= baselineScale * ry <= knobs.maxNormScaleX ==> r.0 == baselineScale * ry)
      && (knobs.minNormScaleY <= baselineScale * rx ==> r.1 == baselineScale * rx)
      && (baselineScale * rx < knobs.minNormScaleY ==> r.1 == knobs.minNormScaleY)
  {
  }

  /** The scale factors the character-mode branch hands back: the normalised
      range per clamped pixel size.  A clamped size of zero would divide by
      zero and yields no factor. */
  function CharNormScales(baselineScale: real, rx: real, ry: real, knobs: NormKnobs): (r: (Option<real>, Option<real>))
    ensures var c := ClampScales(baselineScale, rx, ry, knobs);
      && (r.0.Some? <==> c.0 != 0.0)
      && (r.1.Some? <==> c.1 != 0.0)
      && (r.0.Some? ==> r.0.value * c.0 == knobs.charNormRange * baselineScale)
      && (r.1.Some? ==> r.1.value * c.1 == knobs.charNormRange * baselineScale)
  {
    var c := ClampScales(baselineScale, rx, ry, knobs);
    (if c.0 != 0.0 then Some(knobs.charNormRange * baselineScale / c.0) else None,
     if c.1 != 0.0 then Some(knobs.charNormRange * baselineScale / c.1) else None)
  }

  /** With positive lower bounds the clamped sizes are positive, so both scale
      factors exist. */
  lemma PositiveBoundsGiveScales(baselineScale: real, rx: real, ry: real, knobs: NormKnobs)
    requires 0.0 < knobs.minNormScaleX <= knobs.maxNormScaleX && 0.0 < knobs.minNormScaleY
    ensures CharNormScales(baselineScale, rx, ry, knobs).0.Some?
    ensures CharNormScales(baselineScale, rx, ry, knobs).1.Some?
  {
  }

  // ---------------------------------------------------------------------------
  // Blob centre

  /** C division of integers, which truncates toward zero. */
  function CDiv(a: int, b: int): int
    requires b > 0
  {
    if a >= 0 then a / b else -((-a) / b)
  }

  datatype TPoint = TPoint(x: int, y: int)

  /** `ComputeBlobCenter`: the middle of the bounding box, in coordinates scaled
      up by `2^vecScale`. */
  function ComputeBlobCenter(topLeft: TPoint, bottomRight: TPoint, vecScale: nat): (c: TPoint)
    ensures var sx := topLeft.x * IntProto.Pow2(vecScale) + bottomRight.x * IntProto.Pow2(vecScale);
      var sy := topLeft.y * IntProto.Pow2(vecScale) + bottomRight.y * IntProto.Pow2(vecScale);
      && -1 <= sx - 2 * c.x <= 1 && -1 <= sy - 2 * c.y <= 1
  {
    TPoint(CDiv(topLeft.x * IntProto.Pow2(vecScale) + bottomRight.x * IntProto.Pow2(vecScale), 2),
           CDiv(topLeft.y * IntProto.Pow2(vecScale) + bottomRight.y * IntProto.Pow2(vecScale), 2))
  }

  /** With a positive scale-up the sum of the corners is even, so the centre is
      exact: twice the centre is the scaled sum. */
  lemma BlobCenterExact(topLeft: TPoint, bottomRight: TPoint, vecScale: nat)
    requires vecScale >= 1
    ensures var c := ComputeBlobCenter(topLeft, bottomRight, vecScale);
      && 2 * c.x == (topLeft.x + bottomRight.x) * IntProto.Pow2(vecScale)
      && 2 * c.y == (topLeft.y + bottomRight.y) * IntProto.Pow2(vecScale)
  {
    var h := IntProto.Pow2(vecScale - 1);
    assert IntProto.Pow2(vecScale) == 2 * h;
    CentreCoord(topLeft.x, bottomRight.x, h);
    CentreCoord(topLeft.y, bottomRight.y, h);
  }

  /** One coordinate of the centre with an even scale `2 * h`. */
  lemma CentreCoord(a: int, b: int, h: int)
    ensures 2 * CDiv(a * (2 * h) + b * (2 * h), 2) == (a + b) * (2 * h)
  {
    var m := (a + b) * h;
    Distribute(a, b, h);
    HalfOfEven(m);
  }

  lemma Distribute(a: int, b: int, h: int)
    ensures a * (2 * h) + b * (2 * h) == 2 * ((a + b) * h)
    ensures (a + b) * (2 * h) == 2 * ((a + b) * h)
  {
  }

  lemma HalfOfEven(m: int)
    ensures CDiv(2 * m, 2) == m
  {
  }
}
