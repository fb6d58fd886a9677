/** Conversion of a blob's outlines (`TESSLINE`) into micro-feature outlines:
    `ConvertOutline` for one outline and `ConvertOutlines` for a tree of
    outlines and their holes. */
module Convert {
  import opened Wrappers
  import opened Circular
  import opened MfOutline

  /** A point of the source polygon (`EDGEPT`): its integer position and
      whether the edge leaving it is hidden. */
  datatype SrcPt = SrcPt(x: int, y: int, hidden: bool)

  /** One step of the compressed outline (`BYTEVEC`). */
  datatype Step = Step(dx: int, dy: int)

  /** `TESSLINE`: the start of the compressed outline, the compressed steps
      and the polygon; `None` stands for a null pointer.  The polygon is a
      circular list, walked from its first point. */
  datatype TessLine = TessLine(start: (int, int), compactLoop: Option<seq<Step>>, loop: Option<seq<SrcPt>>)

  /** A node of the outline tree: an outline and the list of its children. */
  datatype TessNode = TessNode(line: TessLine, children: seq<TessNode>)

  datatype OutlineType = Outer | Hole

  /** Where a polygon point lands in the converted outline; the expanded form
      shifts by the blob centre and divides by `REALSCALE`, which is not part
      of this model. */
  type Place = ((int, int)) -> (real, real)

  /** The placement of a baseline-normalised polygon: the position itself. */
  function AsReal(p: (int, int)): (real, real) {
    (p.0 as real, p.1 as real)
  }

  /** The sequence in the opposite order. */
  function Reverse<T>(s: seq<T>): (r: seq<T>)
    ensures |r| == |s|
  {
    if |s| == 0 then [] else [s[|s| - 1]] + Reverse(s[..|s| - 1])
  }

  /** Element `j` of the reversal is element `|s| - 1 - j` of the original. */
  lemma {:induction false} ReverseIndex<T>(s: seq<T>, j: nat)
    requires j < |s|
    ensures Reverse(s)[j] == s[|s| - 1 - j]
  {
    if j > 0 {
      ReverseIndex(s[..|s| - 1], j - 1);
    }
  }

  /** Pushing onto the front of a list built in walk order is reversing it. */
  lemma ReverseSnoc<T>(s: seq<T>, x: T)
    ensures Reverse(s + [x]) == [x] + Reverse(s)
  {
    assert (s + [x])[..|s|] == s;
  }

  lemma {:induction false} ReverseAppend<T>(a: seq<T>, b: seq<T>)
    ensures Reverse(a + b) == Reverse(b) + Reverse(a)
    decreases |b|
  {
    if |b| == 0 {
      assert a + b == a;
    } else {
      var c := b[..|b| - 1];
      assert a + b == (a + c) + [b[|b| - 1]];
      ReverseSnoc(a + c, b[|b| - 1]);
      ReverseAppend(a, c);
      assert b == c + [b[|b| - 1]];
      ReverseSnoc(c, b[|b| - 1]);
    }
  }

  lemma PushBlocks<T>(x: T, a: seq<T>, b: seq<T>, c: seq<T>)
    ensures [x] + (a + (b + c)) == ([x] + a + b) + c
  {
  }

  /** A fresh converted point with its mark cleared.  The fields the source
      leaves unset get fixed values here. */
  function NewPoint(x: real, y: real, hidden: bool): (p: EdgePt)
    ensures p.x == x && p.y == y && p.hidden == hidden && !p.extremity
  {
    EdgePt(x, y, 0.0, North, North, hidden, false)
  }

  // ---------------------------------------------------------------------------
  // The polygon forms

  /** The point `i` of the polygon lies elsewhere than its successor. */
  predicate Moves(loop: seq<SrcPt>, i: nat)
    requires i < |loop|
  {
    var next := loop[Succ(i, |loop|)];
    loop[i].x != next.x || loop[i].y != next.y
  }

  function LoopPoint(p: SrcPt, place: Place): (q: EdgePt)
    ensures q.hidden == p.hidden && !q.extremity
  {
    var xy := place((p.x, p.y));
    NewPoint(xy.0, xy.1, p.hidden)
  }

  /** The points kept from the first `i` points of the walk, in walk order. */
  function LoopKept(loop: seq<SrcPt>, i: nat, place: Place): (r: Outline)
    requires i <= |loop|
    ensures |r| <= i
  {
    if i == 0 then []
    else LoopKept(loop, i - 1, place) + (if Moves(loop, i - 1) then [LoopPoint(loop[i - 1], place)] else [])
  }

  /** A point is kept exactly when it is the placement of a polygon point that
      moves on to its successor. */
  lemma {:induction false} LoopKeptIff(loop: seq<SrcPt>, i: nat, place: Place, p: EdgePt)
    requires i <= |loop|
    ensures p in LoopKept(loop, i, place) <==>
      exists k :: 0 <= k < i && Moves(loop, k) && p == LoopPoint(loop[k], place)
  {
    if i > 0 {
      LoopKeptIff(loop, i - 1, place, p);
      if p == LoopPoint(loop[i - 1], place) && Moves(loop, i - 1) {
        assert p in LoopKept(loop, i, place);
      }
    }
  }

  /** A polygon without repeated consecutive points keeps every point. */
  lemma {:induction false} LoopKeptAll(loop: seq<SrcPt>, i: nat, place: Place)
    requires i <= |loop|
    requires forall k :: 0 <= k < |loop| ==> Moves(loop, k)
    ensures |LoopKept(loop, i, place)| == i
    ensures forall k :: 0 <= k < i ==> LoopKept(loop, i, place)[k] == LoopPoint(loop[k], place)
  {
    if i > 0 {
      LoopKeptAll(loop, i - 1, place);
    }
  }

  /** The polygon forms of `ConvertOutline`: walk the circular polygon once
      from its first point and push each point that lies elsewhere than its
      successor, with its hidden flag. */
  method ConvertLoop(loop: seq<SrcPt>, place: Place) returns (r: Outline)
    requires |loop| > 0
    ensures r == Reverse(LoopKept(loop, |loop|, place))
  {
    var n := |loop|;
    r := [];
    var e := 0;
    ghost var i := 0;
    var started := false;
    while !started || e != 0
      invariant i <= n && e == (if i == n then 0 else i)
      invariant started <==> i > 0
      invariant r == Reverse(LoopKept(loop, i, place))
      decreases n - i
    {
      var next := Succ(e, n);
      if loop[e].x != loop[next].x || loop[e].y != loop[next].y {
        ReverseSnoc(LoopKept(loop, i, place), LoopPoint(loop[e], place));
        r := [LoopPoint(loop[e], place)] + r;
      } else {
        assert LoopKept(loop, i + 1, place) == LoopKept(loop, i, place);
      }
      e := next;
      i := i + 1;
      started := true;
    }
  }

  // ---------------------------------------------------------------------------
  // The compressed form

  /** The position after the first `k` steps from `start`. */
  function Walk(start: (int, int), steps: seq<Step>, k: nat): (int, int)
    requires k <= |steps|
  {
    if k == 0 then start
    else
      var p := Walk(start, steps, k - 1);
      (p.0 + steps[k - 1].dx, p.1 + steps[k - 1].dy)
  }

  /** After `k` steps the walk is back at `start`. */
  ghost predicate ClosesAt(start: (int, int), steps: seq<Step>, k: nat) {
    1 <= k <= |steps| && Walk(start, steps, k) == start
  }

  /** The compressed outline comes back to its start within its steps; the
      source walks on until it does. */
  ghost predicate Closes(start: (int, int), steps: seq<Step>) {
    exists k :: ClosesAt(start, steps, k)
  }

  /** The first return to `start` at or after step `j`. */
  ghost function ClosingFrom(start: (int, int), steps: seq<Step>, j: nat): (k: nat)
    requires 1 <= j && exists k :: j <= k && ClosesAt(start, steps, k)
    ensures j <= k && ClosesAt(start, steps, k)
    decreases |steps| - j
  {
    if Walk(start, steps, j) == start then j
    else
      ClosingFrom(start, steps, j + 1)
  }

  /** No return to `start` comes between `j` and the one `ClosingFrom` finds. */
  lemma {:induction false} ClosingFromFirst(start: (int, int), steps: seq<Step>, j: nat, m: nat)
    requires 1 <= j && exists k :: j <= k && ClosesAt(start, steps, k)
    requires j <= m < ClosingFrom(start, steps, j)
    ensures !ClosesAt(start, steps, m)
    decreases |steps| - j
  {
    if m > j {
      ClosingFromFirst(start, steps, j + 1, m);
    }
  }

  /** The points kept from the first `i` steps, in walk order: the position
      before every non-zero step, visible. */
  function CompactKept(start: (int, int), steps: seq<Step>, i: nat): (r: Outline)
    requires i <= |steps|
    ensures |r| <= i
  {
    if i == 0 then []
    else
      var p := Walk(start, steps, i - 1);
      CompactKept(start, steps, i - 1)
        + (if steps[i - 1] != Step(0, 0) then [NewPoint(p.0 as real, p.1 as real, false)] else [])
  }

  /** A point is kept exactly when a non-zero step leaves from it; every kept
      point is visible. */
  lemma {:induction false} CompactKeptIff(start: (int, int), steps: seq<Step>, i: nat, p: EdgePt)
    requires i <= |steps|
    ensures p in CompactKept(start, steps, i) <==>
      exists k :: 0 <= k < i && steps[k] != Step(0, 0)
        && p == NewPoint(Walk(start, steps, k).0 as real, Walk(start, steps, k).1 as real, false)
    ensures p in CompactKept(start, steps, i) ==> !p.hidden
  {
    if i > 0 {
      CompactKeptIff(start, steps, i - 1, p);
      var w := Walk(start, steps, i - 1);
      if steps[i - 1] != Step(0, 0) && p == NewPoint(w.0 as real, w.1 as real, false) {
        assert p in CompactKept(start, steps, i);
      }
    }
  }

  /** The compressed form of `ConvertOutline`: walk the steps from `start`
      until the position comes back to it, pushing the position before each
      non-zero step as a visible point. */
  method ConvertCompact(start: (int, int), steps: seq<Step>) returns (r: Outline)
    requires Closes(start, steps)
    ensures r == Reverse(CompactKept(start, steps, ClosingFrom(start, steps, 1)))
  {
    ghost var last := ClosingFrom(start, steps, 1);
    r := [];
    var position := start;
    var i := 0;
    var started := false;
    while !started || position != start
      invariant i <= last && position == Walk(start, steps, i)
      invariant started <==> i > 0
      invariant r == Reverse(CompactKept(start, steps, i))
      decreases last - i
    {
      if i == last {
        assert false;
      }
      var step := steps[i];
      if step.dx != 0 || step.dy != 0 {
        ReverseSnoc(CompactKept(start, steps, i), NewPoint(position.0 as real, position.1 as real, false));
        r := [NewPoint(position.0 as real, position.1 as real, false)] + r;
      } else {
        assert CompactKept(start, steps, i + 1) == CompactKept(start, steps, i);
      }
      position := (position.0 + step.dx, position.1 + step.dy);
      i := i + 1;
      started := true;
    }
    if i < last {
      ClosingFromFirst(start, steps, 1, i);
      assert false;
    }
  }

  // ---------------------------------------------------------------------------
  // ConvertOutline

  /** What `ConvertOutline` needs of an outline: a present polygon is a
      circle of at least one point, present compressed steps come back to the
      start, and in baseline-normalised mode the polygon is present. */
  ghost predicate Convertible(line: TessLine, baselineNormalized: bool) {
    && (line.loop.Some? ==> |line.loop.value| > 0)
    && (line.loop.None? && line.compactLoop.Some? ==>
          !baselineNormalized && Closes(line.start, line.compactLoop.value))
  }

  /** The outline `ConvertOutline` builds, by the form it reads (an outline
      it cannot read is given the empty outline here). */
  ghost function Converted(outline: Option<TessLine>, baselineNormalized: bool, place: Place): Outline {
    match outline
    case None => []
    case Some(line) =>
      if !Convertible(line, baselineNormalized) then []
      else if line.compactLoop.None? && line.loop.None? then []
      else if line.loop.Some? then
        var placed := if baselineNormalized then AsReal else place;
        Reverse(LoopKept(line.loop.value, |line.loop.value|, placed))
      else
        Reverse(CompactKept(line.start, line.compactLoop.value, ClosingFrom(line.start, line.compactLoop.value, 1)))
  }

  /** `ConvertOutline`: a null outline, or one with neither form, gives the
      empty outline; otherwise the polygon is converted when baseline
      normalised or present, and the compressed steps when not. */
  method ConvertOutline(outline: Option<TessLine>, baselineNormalized: bool, place: Place) returns (r: Outline)
    requires outline.Some? ==> Convertible(outline.value, baselineNormalized)
    ensures r == Converted(outline, baselineNormalized, place)
    ensures outline.None? || (outline.value.compactLoop.None? && outline.value.loop.None?) ==> r == []
  {
    r := [];
    if outline.None? || (outline.value.compactLoop.None? && outline.value.loop.None?) {
      return;
    }
    var line := outline.value;
    if baselineNormalized {
      r := ConvertLoop(line.loop.value, AsReal);
    } else if line.loop.None? {
      r := ConvertCompact(line.start, line.compactLoop.value);
    } else {
      r := ConvertLoop(line.loop.value, place);
    }
  }

  // ---------------------------------------------------------------------------
  // ConvertOutlines

  /** The outlines of a forest in the order `ConvertOutlines` converts them:
      for each sibling in turn, its children's outlines, then its own. */
  function PostOrder(nodes: seq<TessNode>): (r: seq<TessLine>)
    decreases nodes
  {
    if |nodes| == 0 then []
    else PostOrder(nodes[0].children) + [nodes[0].line] + PostOrder(nodes[1..])
  }

  /** The number of nodes of a forest. */
  function NodeCount(nodes: seq<TessNode>): nat
    decreases nodes
  {
    if |nodes| == 0 then 0 else NodeCount(nodes[0].children) + 1 + NodeCount(nodes[1..])
  }

  /** Every node's outline is listed once. */
  lemma {:induction false} PostOrderLength(nodes: seq<TessNode>)
    ensures |PostOrder(nodes)| == NodeCount(nodes)
    decreases nodes
  {
    if |nodes| > 0 {
      PostOrderLength(nodes[0].children);
      PostOrderLength(nodes[1..]);
    }
  }

  /** Adding one more sibling appends its subtree, children first. */
  lemma {:induction false} PostOrderSnoc(nodes: seq<TessNode>, i: nat)
    requires i < |nodes|
    ensures PostOrder(nodes[..i + 1]) == PostOrder(nodes[..i]) + PostOrder(nodes[i].children) + [nodes[i].line]
    decreases i
  {
    if i == 0 {
      assert nodes[..1][1..] == [];
    } else {
      var tail := nodes[1..];
      assert nodes[..i + 1][1..] == tail[..i];
      assert nodes[..i][1..] == tail[..i - 1];
      assert nodes[..i + 1][0] == nodes[0] && nodes[..i][0] == nodes[0];
      PostOrderSnoc(tail, i - 1);
      assert tail[i - 1] == nodes[i];
    }
  }

  /** Everything `ConvertOutlines` converts is convertible. */
  ghost predicate AllConvertible(nodes: seq<TessNode>, baselineNormalized: bool) {
    forall l :: l in PostOrder(nodes) ==> Convertible(l, baselineNormalized)
  }

  /** The outlines converted in order. */
  ghost function ConvertAll(lines: seq<TessLine>, baselineNormalized: bool, place: Place): (r: seq<Outline>)
    ensures |r| == |lines|
  {
    if |lines| == 0 then []
    else
      ConvertAll(lines[..|lines| - 1], baselineNormalized, place)
        + [Converted(Some(lines[|lines| - 1]), baselineNormalized, place)]
  }

  lemma {:induction false} ConvertAllAppend(a: seq<TessLine>, b: seq<TessLine>, baselineNormalized: bool, place: Place)
    ensures ConvertAll(a + b, baselineNormalized, place)
      == ConvertAll(a, baselineNormalized, place) + ConvertAll(b, baselineNormalized, place)
    decreases |b|
  {
    if |b| > 0 {
      assert (a + b)[..|a + b| - 1] == a + b[..|b| - 1];
      ConvertAllAppend(a, b[..|b| - 1], baselineNormalized, place);
    } else {
      assert a + b == a;
    }
  }

  /** The sub-forests of a convertible forest are convertible. */
  lemma SubtreeConvertible(nodes: seq<TessNode>, i: nat, baselineNormalized: bool)
    requires i < |nodes| && AllConvertible(nodes, baselineNormalized)
    ensures AllConvertible(nodes[i].children, baselineNormalized)
    ensures Convertible(nodes[i].line, baselineNormalized)
  {
    PostOrderSnoc(nodes, i);
    PostOrderPrefix(nodes, i + 1);
    var whole := PostOrder(nodes);
    var upTo := PostOrder(nodes[..i + 1]);
    var before := PostOrder(nodes[..i]);
    var inner := PostOrder(nodes[i].children);
    forall l | l in inner
      ensures Convertible(l, baselineNormalized)
    {
      var j :| 0 <= j < |inner| && inner[j] == l;
      assert upTo[|before| + j] == l;
      assert whole[|before| + j] == l;
    }
    assert whole[|upTo| - 1] == nodes[i].line;
  }

  /** Converting one more sibling pushes its children's outlines and then its
      own. */
  lemma ConvertStep(nodes: seq<TessNode>, i: nat, baselineNormalized: bool, place: Place)
    requires i < |nodes|
    ensures Reverse(ConvertAll(PostOrder(nodes[..i + 1]), baselineNormalized, place))
      == [Converted(Some(nodes[i].line), baselineNormalized, place)]
        + Reverse(ConvertAll(PostOrder(nodes[i].children), baselineNormalized, place))
        + Reverse(ConvertAll(PostOrder(nodes[..i]), baselineNormalized, place))
  {
    var before := PostOrder(nodes[..i]);
    var inner := PostOrder(nodes[i].children);
    PostOrderSnoc(nodes, i);
    assert PostOrder(nodes[..i + 1]) == before + inner + [nodes[i].line];
    ConvertAllAppend(before, inner, baselineNormalized, place);
    ConvertAllAppend(before + inner, [nodes[i].line], baselineNormalized, place);
    var mf := Converted(Some(nodes[i].line), baselineNormalized, place);
    assert ConvertAll([nodes[i].line], baselineNormalized, place) == [mf];
    ReverseSnoc(ConvertAll(before + inner, baselineNormalized, place), mf);
    ReverseAppend(ConvertAll(before, baselineNormalized, place), ConvertAll(inner, baselineNormalized, place));
  }

  /** An empty forest converts to nothing. */
  lemma EmptyForest(nodes: seq<TessNode>, baselineNormalized: bool, place: Place)
    requires |nodes| == 0
    ensures Reverse(ConvertAll(PostOrder(nodes), baselineNormalized, place)) == []
  {
  }

  /** Pushing sibling `i` after its children keeps the loop's account of
      what has been converted so far. */
  lemma PushSibling(nodes: seq<TessNode>, i: nat, before: seq<Outline>, mf: Outline,
                    converted: seq<Outline>, baselineNormalized: bool, place: Place)
    requires i < |nodes|
    requires before == Reverse(ConvertAll(PostOrder(nodes[..i]), baselineNormalized, place)) + converted
    requires mf == Converted(Some(nodes[i].line), baselineNormalized, place)
    ensures [mf] + (Reverse(ConvertAll(PostOrder(nodes[i].children), baselineNormalized, place)) + before)
      == Reverse(ConvertAll(PostOrder(nodes[..i + 1]), baselineNormalized, place)) + converted
  {
    ConvertStep(nodes, i, baselineNormalized, place);
    PushBlocks(mf, Reverse(ConvertAll(PostOrder(nodes[i].children), baselineNormalized, place)),
      Reverse(ConvertAll(PostOrder(nodes[..i]), baselineNormalized, place)), converted);
  }

  /** A prefix of the siblings lists a prefix of the outlines. */
  lemma {:induction false} PostOrderPrefix(nodes: seq<TessNode>, i: nat)
    requires i <= |nodes|
    ensures PostOrder(nodes[..i]) <= PostOrder(nodes)
    decreases |nodes| - i
  {
    if i < |nodes| {
      PostOrderSnoc(nodes, i);
      PostOrderPrefix(nodes, i + 1);
    } else {
      assert nodes[..i] == nodes;
    }
  }

  /** `ConvertOutlines`: convert every outline of the forest, children
      (with the outline type flipped) before their parent, pushing each
      converted outline onto `converted`. */
  method ConvertOutlines(nodes: seq<TessNode>, converted: seq<Outline>, outlineType: OutlineType,
                         baselineNormalized: bool, place: Place)
    returns (r: seq<Outline>)
    requires AllConvertible(nodes, baselineNormalized)
    ensures r == Reverse(ConvertAll(PostOrder(nodes), baselineNormalized, place)) + converted
    ensures |r| == |converted| + NodeCount(nodes)
    decreases nodes, 1
  {
    r := converted;
    var i := 0;
    while i < |nodes|
      invariant i <= |nodes|
      invariant r == Reverse(ConvertAll(PostOrder(nodes[..i]), baselineNormalized, place)) + converted
    {
      ghost var before := r;
      r := ConvertSibling(nodes, i, r, outlineType, baselineNormalized, place);
      PushSibling(nodes, i, before, r[0], converted, baselineNormalized, place);
      i := i + 1;
    }
    assert nodes[..i] == nodes;
    PostOrderLength(nodes);
  }

  /** One pass of the `ConvertOutlines` loop: the children of sibling `i`
      with the other outline type, then the sibling itself, pushed onto
      `converted`. */
  method ConvertSibling(nodes: seq<TessNode>, i: nat, converted: seq<Outline>, outlineType: OutlineType,
                        baselineNormalized: bool, place: Place)
    returns (r: seq<Outline>)
    requires i < |nodes| && AllConvertible(nodes, baselineNormalized)
    ensures r == [Converted(Some(nodes[i].line), baselineNormalized, place)]
      + (Reverse(ConvertAll(PostOrder(nodes[i].children), baselineNormalized, place)) + converted)
    decreases nodes, 0
  {
    var node := nodes[i];
    SubtreeConvertible(nodes, i, baselineNormalized);
    r := converted;
    if |node.children| > 0 {
      var childType := if outlineType == Outer then Hole else Outer;
      r := ConvertOutlines(node.children, r, childType, baselineNormalized, place);
    } else {
      EmptyForest(node.children, baselineNormalized, place);
    }
    var mf := ConvertOutline(Some(node.line), baselineNormalized, place);
    r := [mf] + r;
  }
}
