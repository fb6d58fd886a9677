/** The integer bounding box `TBOX`: a bottom-left and a top-right corner with
    closed bounds.  A box whose left exceeds its right, or whose top lies below
    its bottom, is a null box. */
module Rect {

  const MAX_INT16: int := 32767

  /** An integer point. */
  datatype ICoord = ICoord(x: int, y: int) {
    function Plus(v: ICoord): ICoord {
      ICoord(x + v.x, y + v.y)
    }

    function Neg(): ICoord {
      ICoord(-x, -y)
    }

    function ToF(): FCoord {
      FCoord(x as real, y as real)
    }
  }

  /** A floating point, over the reals. */
  datatype FCoord = FCoord(x: real, y: real)

  function Min(a: int, b: int): int {
    if a < b then a else b
  }

  function Max(a: int, b: int): int {
    if a > b then a else b
  }

  datatype TBox = TBox(botLeft: ICoord, topRight: ICoord) {

    function Left(): int { botLeft.x }
    function Right(): int { topRight.x }
    function Bottom(): int { botLeft.y }
    function Top(): int { topRight.y }

    predicate IsNull() {
      Left() > Right() || Top() < Bottom()
    }

    function BotRight(): (c: ICoord)
      ensures c.x == Right() && c.y == Bottom()
    {
      ICoord(topRight.x, botLeft.y)
    }

    function TopLeft(): (c: ICoord)
      ensures c.x == Left() && c.y == Top()
    {
      ICoord(botLeft.x, topRight.y)
    }

    function Height(): (h: int)
      ensures h >= 0
      ensures IsNull() ==> h == 0
    {
      if !IsNull() then Top() - Bottom() else 0
    }

    function Width(): (w: int)
      ensures w >= 0
      ensures IsNull() ==> w == 0
    {
      if !IsNull() then Right() - Left() else 0
    }

    function Area(): (a: int)
      ensures a >= 0
      ensures a == 0 <==> IsNull() || Width() == 0 || Height() == 0
    {
      if !IsNull() then Width() * Height() else 0
    }

    /** Closed-bounds membership of a floating point. */
    predicate ContainsPoint(pt: FCoord) {
      && pt.x >= Left() as real && pt.x <= Right() as real
      && pt.y >= Bottom() as real && pt.y <= Top() as real
    }

    /** `box` lies inside this box: both its corners do. */
    predicate ContainsBox(box: TBox) {
      ContainsPoint(box.botLeft.ToF()) && ContainsPoint(box.topRight.ToF())
    }

    predicate Overlap(box: TBox) {
      && box.Left() <= Right() && box.Right() >= Left()
      && box.Bottom() <= Top() && box.Top() >= Bottom()
    }

    /** Twice the overlap on each axis is at least the smaller extent there. */
    predicate MajorOverlap(box: TBox) {
      var ox := Min(box.Right(), Right()) - Max(box.Left(), Left());
      var oy := Min(box.Top(), Top()) - Max(box.Bottom(), Bottom());
      ox + ox >= Min(box.Width(), Width()) && oy + oy >= Min(box.Height(), Height())
    }

    function Move(vec: ICoord): (r: TBox)
      ensures r.botLeft == botLeft.Plus(vec) && r.topRight == topRight.Plus(vec)
    {
      TBox(botLeft.Plus(vec), topRight.Plus(vec))
    }

    function MoveBottomEdge(y: int): (r: TBox)
      ensures r.Bottom() == Bottom() + y
      ensures r.Left() == Left() && r.Right() == Right() && r.Top() == Top()
    {
      TBox(botLeft.Plus(ICoord(0, y)), topRight)
    }

    function MoveLeftEdge(x: int): (r: TBox)
      ensures r.Left() == Left() + x
      ensures r.Bottom() == Bottom() && r.Right() == Right() && r.Top() == Top()
    {
      TBox(botLeft.Plus(ICoord(x, 0)), topRight)
    }

    function MoveRightEdge(x: int): (r: TBox)
      ensures r.Right() == Right() + x
      ensures r.Left() == Left() && r.Bottom() == Bottom() && r.Top() == Top()
    {
      TBox(botLeft, topRight.Plus(ICoord(x, 0)))
    }

    function MoveTopEdge(y: int): (r: TBox)
      ensures r.Top() == Top() + y
      ensures r.Left() == Left() && r.Bottom() == Bottom() && r.Right() == Right()
    {
      TBox(botLeft, topRight.Plus(ICoord(0, y)))
    }
  }

  /** The default-constructed box. */
  function NullTBox(): (b: TBox)
    ensures b.IsNull()
    ensures b.Width() == 0 && b.Height() == 0 && b.Area() == 0
  {
    TBox(ICoord(MAX_INT16, MAX_INT16), ICoord(-MAX_INT16, -MAX_INT16))
  }

  /** Reference meaning of a box: the set of integer points it covers. */
  predicate Covers(b: TBox, p: ICoord) {
    b.Left() <= p.x <= b.Right() && b.Bottom() <= p.y <= b.Top()
  }

  /** A box is null exactly when it covers no integer point. */
  lemma NullMeansEmpty(b: TBox)
    ensures b.IsNull() <==> forall p: ICoord :: !Covers(b, p)
  {
    if !b.IsNull() {
      assert Covers(b, b.botLeft);
    }
  }

  /** An integer point is contained (as a float point) exactly when covered. */
  lemma ContainsPointAgreesWithCovers(b: TBox, p: ICoord)
    ensures b.ContainsPoint(p.ToF()) <==> Covers(b, p)
  {
  }

  /** Width, height and area of a non-null box are its extents and their product. */
  lemma MeasuresOfNonNull(b: TBox)
    requires !b.IsNull()
    ensures b.Left() + b.Width() == b.Right() && b.Bottom() + b.Height() == b.Top()
    ensures b.Area() == b.Width() * b.Height()
  {
  }

  lemma OverlapSymmetric(a: TBox, b: TBox)
    ensures a.Overlap(b) <==> b.Overlap(a)
  {
  }

  /** Bounds are closed: boxes that share only an edge still overlap. */
  lemma SharedEdgeOverlaps(a: TBox, d: nat)
    requires !a.IsNull()
    ensures a.Overlap(TBox(ICoord(a.Right(), a.Bottom()), ICoord(a.Right() + d, a.Top())))
  {
  }

  /** For non-null boxes, overlap means some integer point lies in both. */
  lemma OverlapMeansCommonPoint(a: TBox, b: TBox)
    requires !a.IsNull() && !b.IsNull()
    ensures a.Overlap(b) <==> exists p: ICoord :: Covers(a, p) && Covers(b, p)
  {
    if a.Overlap(b) {
      var p := ICoord(Max(a.Left(), b.Left()), Max(a.Bottom(), b.Bottom()));
      assert Covers(a, p) && Covers(b, p);
    }
  }

  /** For a non-null inner box, containment is inclusion of covered points. */
  lemma ContainsMeansSubset(outer: TBox, inner: TBox)
    requires !inner.IsNull()
    ensures outer.ContainsBox(inner) <==> forall p: ICoord :: Covers(inner, p) ==> Covers(outer, p)
  {
    if forall p: ICoord :: Covers(inner, p) ==> Covers(outer, p) {
      assert Covers(inner, inner.botLeft);
      assert Covers(inner, inner.topRight);
    }
  }

  lemma ContainsReflexive(b: TBox)
    requires !b.IsNull()
    ensures b.ContainsBox(b)
  {
  }

  lemma ContainsTransitive(a: TBox, b: TBox, c: TBox)
    requires !b.IsNull() && !c.IsNull()
    requires a.ContainsBox(b) && b.ContainsBox(c)
    ensures a.ContainsBox(c)
  {
    ContainsMeansSubset(a, b);
    ContainsMeansSubset(b, c);
    ContainsMeansSubset(a, c);
  }

  /** A box containing a non-null box overlaps it. */
  lemma ContainsImpliesOverlap(a: TBox, b: TBox)
    requires !b.IsNull()
    requires a.ContainsBox(b)
    ensures a.Overlap(b) && b.Overlap(a)
  {
  }

  lemma MajorOverlapSymmetric(a: TBox, b: TBox)
    ensures a.MajorOverlap(b) <==> b.MajorOverlap(a)
  {
  }

  /** Overlapping by half of the smaller box implies overlapping at all. */
  lemma MajorOverlapImpliesOverlap(a: TBox, b: TBox)
    requires a.MajorOverlap(b)
    ensures a.Overlap(b)
  {
  }

  /** A non-null box lies wholly over any box containing it, so the two
      overlap by more than half of the smaller one. */
  lemma ContainsImpliesMajorOverlap(a: TBox, b: TBox)
    requires !b.IsNull()
    requires a.ContainsBox(b)
    ensures a.MajorOverlap(b) && b.MajorOverlap(a)
  {
    assert !a.IsNull();
    assert a.Width() >= b.Width() && a.Height() >= b.Height();
  }

  /** Example: a 6x6 box sharing 3 units on each axis with a 7x7 box
      overlaps it by half; sharing 2 with another 6x6 box it does not. */
  lemma MajorOverlapExample()
    ensures TBox(ICoord(2, 2), ICoord(8, 8)).MajorOverlap(TBox(ICoord(5, 5), ICoord(12, 12)))
    ensures !TBox(ICoord(2, 2), ICoord(8, 8)).MajorOverlap(TBox(ICoord(6, 6), ICoord(12, 12)))
  {
  }

  /** Moving a box keeps its shape and nullness, and moving back restores it. */
  lemma MovePreservesShape(b: TBox, v: ICoord)
    ensures b.Move(v).IsNull() <==> b.IsNull()
    ensures b.Move(v).Width() == b.Width()
    ensures b.Move(v).Height() == b.Height()
    ensures b.Move(v).Area() == b.Area()
    ensures b.Move(v).Move(v.Neg()) == b
  {
  }

  /** A point is in the moved box exactly when its preimage is in the box. */
  lemma MoveTranslatesPoints(b: TBox, v: ICoord, p: ICoord)
    ensures Covers(b.Move(v), p.Plus(v)) <==> Covers(b, p)
  {
  }
}
