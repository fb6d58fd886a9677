/** Iterators over the doubly linked lists (`ELIST2_ITERATOR`).  A doubly
    linked list is a singly linked one (`ERing`) whose links also carry a
    `prev` pointer; the `prev` fields of all links form a second map,
    `Prevs`.  Stepping forwards and the walk of `extract_sublist` read only
    `next` pointers and are the singly linked code; what is new here is
    stepping backwards, looking behind, and keeping the `prev` pointers right
    through an exchange and a sublist extraction. */
module EList2Iterator {
  import opened Wrappers
  import opened Circular
  import opened ERing
  import opened EListIterator

  type Prevs = map<Node, Node>

  /** Each link of `s` has the one before it as its `prev`, the first the last. */
  ghost predicate Backed(prevs: Prevs, s: seq<Node>) {
    && (forall k {:trigger s[k] in prevs} :: 0 <= k < |s| ==> s[k] in prevs)
    && (forall k {:trigger prevs[s[k]]} :: 0 <= k < |s| ==> prevs[s[k]] == s[Pred(k, |s|)])
  }

  /** The doubly linked list whose `last` pointer is `last` holds `s`. */
  ghost predicate Holds2(links: Links, prevs: Prevs, last: Option<Node>, s: seq<Node>) {
    Holds(links, last, s) && Backed(prevs, s)
  }

  /** On a doubly linked list each link is the `prev` of its `next` and the
      `next` of its `prev`. */
  lemma Mutual(links: Links, prevs: Prevs, last: Option<Node>, s: seq<Node>, k: nat)
    requires Holds2(links, prevs, last, s) && k < |s|
    ensures links[s[k]] in prevs && prevs[links[s[k]]] == s[k]
    ensures prevs[s[k]] in links && links[prevs[s[k]]] == s[k]
  {
    Around(links, s, k);
    var m := Succ(k, |s|);
    assert prevs[s[m]] == s[Pred(m, |s|)];
  }

  /** Steps to the previous element and returns it; nothing happens on an
      empty list.  If the current element was extracted and was the cycle
      point, the element stepped onto becomes the cycle point. */
  function Backward(prevs: Prevs, last: Option<Node>, it: Iter): (r: (Iter, Option<Node>))
    requires last.Some? ==> it.prev.Some? && it.prev.value in prevs
    ensures last.None? ==> r == (it, None)
    ensures last.Some? ==> r.1 == r.0.current == it.prev
  {
    if last.None? then (it, None)
    else
      var moved :=
        if it.current.Some? then it.(next := it.current, startedCycling := true)
        else if it.exCurrentWasCyclePt then it.(cyclePt := it.prev)
        else it;
      var cur := it.prev.value;
      (moved.(current := Some(cur), prev := Some(prevs[cur])), Some(cur))
  }

  /** From position `i` the iterator moves to the position before it, which
      before the first element is the last; a full cycle has started. */
  lemma BackwardAt(prevs: Prevs, last: Option<Node>, s: seq<Node>, it: Iter, i: nat)
    requires last.Some? && Backed(prevs, s) && At(it, s, i)
    ensures At(Backward(prevs, last, it).0, s, Pred(i, |s|))
    ensures Backward(prevs, last, it).1 == Some(s[Pred(i, |s|)])
    ensures i == 0 ==> Backward(prevs, last, it).1 == Some(s[|s| - 1])
    ensures Backward(prevs, last, it).0.startedCycling
    ensures Backward(prevs, last, it).0.cyclePt == it.cyclePt
  {
    var p := Pred(i, |s|);
    assert prevs[s[p]] == s[Pred(p, |s|)];
    assert Succ(p, |s|) == i;
  }

  /** From the gap after position `j` the iterator moves back onto the
      element before the gap. */
  lemma BackwardGap(prevs: Prevs, last: Option<Node>, s: seq<Node>, it: Iter, j: nat)
    requires last.Some? && Backed(prevs, s) && Gap(it, s, j)
    ensures At(Backward(prevs, last, it).0, s, j)
    ensures Backward(prevs, last, it).0.cyclePt
      == (if it.exCurrentWasCyclePt then Some(s[j]) else it.cyclePt)
    ensures Backward(prevs, last, it).0.startedCycling == it.startedCycling
  {
    assert prevs[s[j]] == s[Pred(j, |s|)];
  }

  /** From a position on the list, stepping backwards undoes a step forwards. */
  lemma BackwardUndoesForward(links: Links, prevs: Prevs, last: Option<Node>, s: seq<Node>, it: Iter, i: nat)
    requires Holds2(links, prevs, last, s) && At(it, s, i)
    ensures var f := Forward(links, last, it).0;
      f.next.Some? && f.next.value in links && f.prev.Some? && f.prev.value in prevs
    ensures var b := Backward(prevs, last, Forward(links, last, it).0).0;
      b.prev == it.prev && b.current == it.current && b.next == it.next && b.cyclePt == it.cyclePt
  {
    ForwardAt(links, last, s, it, i);
    var f := Forward(links, last, it).0;
    BackwardAt(prevs, last, s, f, Succ(i, |s|));
    assert Pred(Succ(i, |s|), |s|) == i;
  }

  /** ... and stepping forwards undoes a step backwards. */
  lemma ForwardUndoesBackward(links: Links, prevs: Prevs, last: Option<Node>, s: seq<Node>, it: Iter, i: nat)
    requires Holds2(links, prevs, last, s) && At(it, s, i)
    ensures var b := Backward(prevs, last, it).0;
      b.next.Some? && b.next.value in links && b.prev.Some? && b.prev.value in prevs
    ensures var f := Forward(links, last, Backward(prevs, last, it).0).0;
      f.prev == it.prev && f.current == it.current && f.next == it.next && f.cyclePt == it.cyclePt
  {
    BackwardAt(prevs, last, s, it, i);
    var b := Backward(prevs, last, it).0;
    ForwardAt(links, last, s, b, Pred(i, |s|));
    assert Succ(Pred(i, |s|), |s|) == i;
  }

  /** The position `m` steps back from `k`, going round as often as needed. */
  function Behind(k: nat, m: nat, n: nat): (j: nat)
    requires k < n
    ensures j < n
    decreases m
  {
    if m == 0 then k else Behind(Pred(k, n), m - 1, n)
  }

  lemma {:induction false} AheadOneMore(k: nat, m: nat, n: nat)
    requires k < n
    ensures Ahead(k, m + 1, n) == Succ(Ahead(k, m, n), n)
    decreases m
  {
    if m > 0 {
      AheadOneMore(Succ(k, n), m - 1, n);
    }
  }

  /** Going back `m` steps from `m` steps ahead returns to the start. */
  lemma {:induction false} BehindAhead(k: nat, m: nat, n: nat)
    requires k < n
    ensures Behind(Ahead(k, m, n), m, n) == k
    decreases m
  {
    if m > 0 {
      AheadOneMore(k, m - 1, n);
      var a := Ahead(k, m - 1, n);
      assert Pred(Succ(a, n), n) == a;
      BehindAhead(k, m - 1, n);
    }
  }

  /** Following `m` prev pointers from position `k` of a doubly linked list. */
  lemma {:induction false} FollowBack(prevs: Prevs, s: seq<Node>, k: nat, m: nat)
    requires Backed(prevs, s) && k < |s|
    ensures Follow(prevs, s[k], m) == Some(s[Behind(k, m, |s|)])
    decreases m
  {
    if m > 0 {
      var k1 := Pred(k, |s|);
      assert prevs[s[k]] == s[k1];
      FollowBack(prevs, s, k1, m - 1);
    }
  }

  /** The element `offset` places from the iterator's position: a negative
      offset walks `prev` pointers from the current element (from `next`
      when the current one was extracted), any other offset walks `next`
      pointers from the current element (from `prev` when it was
      extracted). */
  function DataRelative2(links: Links, prevs: Prevs, it: Iter, offset: int): (r: Option<Node>)
    requires -128 <= offset < 128
  {
    if offset < 0 then
      match (if it.current.Some? then it.current else it.next)
      case None => None
      case Some(p) => Follow(prevs, p, -offset)
    else
      match (if it.current.Some? then it.current else it.prev)
      case None => None
      case Some(p) => Follow(links, p, offset)
  }

  lemma DataRelative2At(links: Links, prevs: Prevs, last: Option<Node>, s: seq<Node>, it: Iter, i: nat, offset: int)
    requires Holds2(links, prevs, last, s) && At(it, s, i) && -128 <= offset < 128
    ensures offset < 0 ==> DataRelative2(links, prevs, it, offset) == Some(s[Behind(i, -offset, |s|)])
    ensures offset == -1 ==> DataRelative2(links, prevs, it, offset) == Some(s[Pred(i, |s|)])
    ensures offset >= 0 ==> DataRelative2(links, prevs, it, offset) == Some(s[Ahead(i, offset, |s|)])
  {
    if offset < 0 {
      FollowBack(prevs, s, i, -offset);
    } else {
      FollowRing(links, s, i, offset);
    }
  }

  lemma DataRelative2Gap(links: Links, prevs: Prevs, last: Option<Node>, s: seq<Node>, it: Iter, j: nat, offset: int)
    requires Holds2(links, prevs, last, s) && Gap(it, s, j) && -128 <= offset < 128
    ensures offset < 0 ==> DataRelative2(links, prevs, it, offset) == Some(s[Behind(Succ(j, |s|), -offset, |s|)])
    ensures offset == -1 ==> DataRelative2(links, prevs, it, offset) == Some(s[j])
    ensures offset >= 0 ==> DataRelative2(links, prevs, it, offset) == Some(s[Ahead(j, offset, |s|)])
  {
    if offset < 0 {
      FollowBack(prevs, s, Succ(j, |s|), -offset);
      assert Pred(Succ(j, |s|), |s|) == j;
    } else {
      FollowRing(links, s, j, offset);
    }
  }

  /** Looking `m` places back from the element `m` places ahead finds the
      current element again. */
  lemma LookBackAgain(links: Links, prevs: Prevs, last: Option<Node>, s: seq<Node>, it: Iter, ahead: Iter, i: nat, m: nat)
    requires Holds2(links, prevs, last, s) && At(it, s, i) && 0 < m < 128
    requires At(ahead, s, Ahead(i, m, |s|))
    ensures DataRelative2(links, prevs, it, m) == ahead.current
    ensures DataRelative2(links, prevs, ahead, -(m as int)) == it.current
  {
    DataRelative2At(links, prevs, last, s, it, i, m);
    DataRelative2At(links, prevs, last, s, ahead, Ahead(i, m, |s|), -(m as int));
    BehindAhead(i, m, |s|);
  }

  /** The pointers and iterators after an exchange of two doubly linked
      elements. */
  datatype Exchanged2 = Exchanged2(links: Links, prevs: Prevs, mine: Side, other: Side)

  /** The `prev` writes of the source's `exchange`, case by case: elements
      `x` (between `ap` and `an`) and `y` (between `bp` and `bn`). */
  function PrevsAsWritten(prevs: Prevs, x: Node, y: Node, ap: Node, an: Node, bp: Node, bn: Node): Prevs
  {
    if an == y || bn == x then
      if an == y && bn == x then prevs
      else if bn == x then prevs[y := x][x := bp][an := y]
      else prevs[x := y][y := ap][bn := x]
    else prevs[x := bp][an := y][y := ap][bn := x]
  }

  /** `exchange` as the source writes it.  Its `next`, `last` and iterator
      updates are those of the singly linked list, written the same way;
      the `prev` writes are added. */
  function ExchangeAsWritten2(links: Links, prevs: Prevs, same: bool, mine: Side, other: Side): (r: Result<Exchanged2, ListError>)
    requires same ==> mine.last == other.last
    requires Bracketed(mine.it) && Bracketed(other.it)
    ensures mine.last.None? || other.last.None? || mine.it.current == other.it.current
      ==> r == Ok(Exchanged2(links, prevs, mine, other))
    ensures r.Err? <==> mine.last.Some? && other.last.Some? && mine.it.current != other.it.current
                        && (mine.it.current.None? || other.it.current.None?)
    ensures r.Err? ==> r.error == DontExchangeDeleted
  {
    match ExchangeAsWritten(links, same, mine, other)
    case Err(e) => Err(e)
    case Ok(e) =>
      if mine.last.None? || other.last.None? || mine.it.current == other.it.current then
        Ok(Exchanged2(links, prevs, mine, other))
      else
        var x, y := mine.it.current.value, other.it.current.value;
        var prevs' := PrevsAsWritten(prevs, x, y, mine.it.prev.value, mine.it.next.value,
                                     other.it.prev.value, other.it.next.value);
        Ok(Exchanged2(e.links, prevs', e.mine, e.other))
  }

  /** `exchange` as evidently intended: the corrected singly linked exchange,
      and every `prev` pointer that named `x` names `y` and the other way
      round. */
  function Exchange2(links: Links, prevs: Prevs, mine: Side, other: Side): (r: Result<Exchanged2, ListError>)
    requires Bracketed(mine.it) && Bracketed(other.it)
    ensures mine.last.None? || other.last.None? || mine.it.current == other.it.current
      ==> r == Ok(Exchanged2(links, prevs, mine, other))
    ensures r.Err? <==> mine.last.Some? && other.last.Some? && mine.it.current != other.it.current
                        && (mine.it.current.None? || other.it.current.None?)
    ensures r.Err? ==> r.error == DontExchangeDeleted
  {
    match Exchange(links, mine, other)
    case Err(e) => Err(e)
    case Ok(e) =>
      if mine.last.None? || other.last.None? || mine.it.current == other.it.current then
        Ok(Exchanged2(links, prevs, mine, other))
      else
        var x, y := mine.it.current.value, other.it.current.value;
        var prevs' := prevs[mine.it.next.value := y][other.it.next.value := x]
                           [x := Swap(x, y, other.it.prev.value)][y := Swap(x, y, mine.it.prev.value)];
        Ok(Exchanged2(e.links, prevs', e.mine, e.other))
  }

  /** In either of two lists that are one or share no link, the only link
      whose `prev` is `s[i]` is the one after it. */
  lemma OnlySuccessor(prevs: Prevs, s: seq<Node>, t: seq<Node>, i: nat, q: Node)
    requires Backed(prevs, s) && Distinct(s) && Backed(prevs, t) && i < |s|
    requires s == t || Disjoint(s, t)
    requires q in s || q in t
    ensures q in prevs
    ensures prevs[q] == s[i] ==> q == s[Succ(i, |s|)]
  {
    if q in s {
      var k :| 0 <= k < |s| && s[k] == q;
      if prevs[q] == s[i] {
        assert s[Pred(k, |s|)] == s[i];
        assert Succ(Pred(k, |s|), |s|) == k;
      }
    } else {
      var k :| 0 <= k < |t| && t[k] == q;
      assert prevs[q] == t[Pred(k, |t|)];
    }
  }

  /** The `prev` surgery of the corrected exchange, on its own: every link
      of the two lists ends up with the swap of its swap's old `prev`. */
  lemma BackSurgery(prevs: Prevs, s: seq<Node>, t: seq<Node>, i: nat, j: nat, p: Node)
    requires Backed(prevs, s) && Backed(prevs, t) && Distinct(s) && Distinct(t)
    requires i < |s| && j < |t| && s[i] != t[j]
    requires s == t || Disjoint(s, t)
    requires p in s || p in t
    ensures var x, y, an, bn := s[i], t[j], s[Succ(i, |s|)], t[Succ(j, |t|)];
      var r := prevs[an := y][bn := x][x := Swap(x, y, prevs[y])][y := Swap(x, y, prevs[x])];
      Swap(x, y, p) in r && r[Swap(x, y, p)] == Swap(x, y, prevs[p])
  {
    var x, y := s[i], t[j];
    var q := Swap(x, y, p);
    assert q in s || q in t;
    assert s == t || Disjoint(t, s);
    assert Swap(x, y, q) == p;
    OnlySuccessor(prevs, s, t, i, p);
    OnlySuccessor(prevs, t, s, j, p);
    var si, tj := Succ(i, |s|), Succ(j, |t|);
    assert prevs[s[si]] == s[Pred(si, |s|)] && Pred(si, |s|) == i;
    assert prevs[t[tj]] == t[Pred(tj, |t|)] && Pred(tj, |t|) == j;
    assert x in prevs && y in prevs && p in prevs;
    SwapSurgery(prevs, x, y, s[si], t[tj], q);
  }

  /** What the corrected exchange leaves in the `prev` pointers. */
  lemma Exchange2Fields(links: Links, prevs: Prevs, mine: Side, other: Side, x: Node, y: Node)
    requires Bracketed(mine.it) && Bracketed(other.it)
    requires mine.last.Some? && other.last.Some?
    requires mine.it.current == Some(x) && other.it.current == Some(y) && x != y
    ensures var r := Exchange2(links, prevs, mine, other);
      && r.Ok? && Exchange(links, mine, other).Ok?
      && r.value.links == Exchange(links, mine, other).value.links
      && r.value.prevs == prevs[mine.it.next.value := y][other.it.next.value := x]
                               [x := Swap(x, y, other.it.prev.value)][y := Swap(x, y, mine.it.prev.value)]
  {
  }

  /** After the corrected exchange, each link's swapped image has as `prev`
      the swapped image of its old `prev`. */
  lemma ExchangePrev(links: Links, prevs: Prevs, mine: Side, other: Side, s: seq<Node>, t: seq<Node>, i: nat, j: nat, p: Node)
    requires ExchangeReady(links, mine, other, s, t, i, j) && s[i] != t[j]
    requires Backed(prevs, s) && Backed(prevs, t)
    requires p in s || p in t
    ensures var x, y := s[i], t[j];
      var r := Exchange2(links, prevs, mine, other).value.prevs;
      Swap(x, y, p) in r && r[Swap(x, y, p)] == Swap(x, y, prevs[p])
  {
    var x, y := s[i], t[j];
    Exchange2Fields(links, prevs, mine, other, x, y);
    assert prevs[x] == mine.it.prev.value && prevs[y] == other.it.prev.value;
    BackSurgery(prevs, s, t, i, j, p);
  }

  /** If the `prev` pointers are re-pointed so that each swapped link's
      `prev` is the swap of its original's `prev`, the list `s` comes out
      with `x` and `y` in each other's places. */
  lemma SwappedBacks(prevs: Prevs, prevs': Prevs, s: seq<Node>, x: Node, y: Node)
    requires Backed(prevs, s)
    requires forall k :: 0 <= k < |s| ==> Swap(x, y, s[k]) in prevs' && prevs'[Swap(x, y, s[k])] == Swap(x, y, prevs[s[k]])
    ensures Backed(prevs', SwapSeq(x, y, s))
  {
    var r := SwapSeq(x, y, s);
    forall k | 0 <= k < |s|
      ensures r[k] in prevs' && prevs'[r[k]] == r[Pred(k, |s|)]
    {
      assert prevs[s[k]] == s[Pred(k, |s|)];
    }
  }

  /** Both lists' `prev` pointers come out of the corrected exchange with the
      two elements swapped. */
  lemma ExchangeBacks(links: Links, prevs: Prevs, mine: Side, other: Side, s: seq<Node>, t: seq<Node>, i: nat, j: nat)
    requires ExchangeReady(links, mine, other, s, t, i, j) && s[i] != t[j]
    requires Backed(prevs, s) && Backed(prevs, t)
    ensures Exchange2(links, prevs, mine, other).Ok?
    ensures Backed(Exchange2(links, prevs, mine, other).value.prevs, SwapSeq(s[i], t[j], s))
    ensures Backed(Exchange2(links, prevs, mine, other).value.prevs, SwapSeq(s[i], t[j], t))
  {
    var x, y := s[i], t[j];
    ExchangeFields(links, mine, other, x, y);
    var r := Exchange2(links, prevs, mine, other).value.prevs;
    forall k | 0 <= k < |s|
      ensures Swap(x, y, s[k]) in r && r[Swap(x, y, s[k])] == Swap(x, y, prevs[s[k]])
    {
      ExchangePrev(links, prevs, mine, other, s, t, i, j, s[k]);
    }
    SwappedBacks(prevs, r, s, x, y);
    forall k | 0 <= k < |t|
      ensures Swap(x, y, t[k]) in r && r[Swap(x, y, t[k])] == Swap(x, y, prevs[t[k]])
    {
      ExchangePrev(links, prevs, mine, other, s, t, i, j, t[k]);
    }
    SwappedBacks(prevs, r, t, x, y);
  }

  /** The corrected exchange swaps the two elements of doubly linked lists:
      each list reads as before with `x` and `y` in each other's places, in
      both directions, and each iterator stands where it stood, now on the
      other's former element. */
  lemma Exchange2Swaps(links: Links, prevs: Prevs, mine: Side, other: Side, s: seq<Node>, t: seq<Node>, i: nat, j: nat)
    requires ExchangeReady(links, mine, other, s, t, i, j) && s[i] != t[j]
    requires Backed(prevs, s) && Backed(prevs, t)
    ensures var r := Exchange2(links, prevs, mine, other);
      && r.Ok?
      && Holds2(r.value.links, r.value.prevs, r.value.mine.last, SwapSeq(s[i], t[j], s))
      && Holds2(r.value.links, r.value.prevs, r.value.other.last, SwapSeq(s[i], t[j], t))
      && At(r.value.mine.it, SwapSeq(s[i], t[j], s), i)
      && At(r.value.other.it, SwapSeq(s[i], t[j], t), j)
      && r.value.mine.it.current == other.it.current
      && r.value.other.it.current == mine.it.current
  {
    ExchangeSwaps(links, mine, other, s, t, i, j);
    ExchangeBacks(links, prevs, mine, other, s, t, i, j);
  }

  /** The `prev` pointers around the two elements, as they stand before an
      exchange. */
  ghost predicate BackSurroundings(prevs: Prevs, mine: Side, other: Side, x: Node, y: Node) {
    && mine.it.prev.Some? && mine.it.next.Some? && other.it.prev.Some? && other.it.next.Some?
    && var ap, an, bp, bn := mine.it.prev.value, mine.it.next.value, other.it.prev.value, other.it.next.value;
    && x in prevs && an in prevs && y in prevs && bn in prevs
    && prevs[x] == ap && prevs[an] == x && prevs[y] == bp && prevs[bn] == y
  }

  lemma ReadyBackSurroundings(links: Links, prevs: Prevs, mine: Side, other: Side, s: seq<Node>, t: seq<Node>, i: nat, j: nat)
    requires ExchangeReady(links, mine, other, s, t, i, j)
    requires Backed(prevs, s) && Backed(prevs, t)
    ensures BackSurroundings(prevs, mine, other, s[i], t[j])
  {
    var si, tj := Succ(i, |s|), Succ(j, |t|);
    assert prevs[s[si]] == s[Pred(si, |s|)] && Pred(si, |s|) == i;
    assert prevs[t[tj]] == t[Pred(tj, |t|)] && Pred(tj, |t|) == j;
  }

  /** Where the two elements are apart, or adjacent in either order, or the
      only two of one list, the source's `prev` writes are the corrected ones. */
  lemma AgreePrevs(links: Links, prevs: Prevs, mine: Side, other: Side, x: Node, y: Node)
    requires Surroundings(links, mine, other, x, y) && BackSurroundings(prevs, mine, other, x, y)
    ensures var ap, an, bp, bn := mine.it.prev.value, mine.it.next.value, other.it.prev.value, other.it.next.value;
      PrevsAsWritten(prevs, x, y, ap, an, bp, bn)
        == prevs[an := y][bn := x][x := Swap(x, y, bp)][y := Swap(x, y, ap)]
  {
    var ap, an, bp, bn := mine.it.prev.value, mine.it.next.value, other.it.prev.value, other.it.next.value;
    if an == y && bn == x {
      assert prevs == prevs[y := y][x := x][x := Swap(x, y, bp)][y := Swap(x, y, ap)];
    } else if bn == x {
      assert prevs[y := x][x := bp][an := y] == prevs[an := y][x := x][x := Swap(x, y, bp)][y := Swap(x, y, ap)];
    } else if an == y {
      assert prevs[x := y][y := ap][bn := x] == prevs[y := y][bn := x][x := Swap(x, y, bp)][y := Swap(x, y, ap)];
    } else {
      assert prevs[x := bp][an := y][y := ap][bn := x] == prevs[an := y][bn := x][x := Swap(x, y, bp)][y := Swap(x, y, ap)];
    }
  }

  /** Away from two inputs (an exchange
      across lists where one list holds a single element, and one within a
      list whose first iterator stands on the last element), the source's
      doubly linked exchange is the corrected one. */
  lemma ExchangeAsWritten2Agrees(links: Links, prevs: Prevs, same: bool, mine: Side, other: Side, s: seq<Node>, t: seq<Node>, i: nat, j: nat)
    requires ExchangeReady(links, mine, other, s, t, i, j) && s[i] != t[j]
    requires Backed(prevs, s) && Backed(prevs, t)
    requires same <==> s == t
    requires same ==> mine.last == other.last && mine.last != mine.it.current
    requires !same ==> |s| > 1 && |t| > 1
    ensures ExchangeAsWritten2(links, prevs, same, mine, other) == Exchange2(links, prevs, mine, other)
  {
    ExchangeAsWrittenAgrees(links, same, mine, other, s, t, i, j);
    ReadySurroundings(links, mine, other, s, t, i, j);
    ReadyBackSurroundings(links, prevs, mine, other, s, t, i, j);
    AgreePrevs(links, prevs, mine, other, s[i], t[j]);
  }

  /** Exchanging the single element of one list with an element of another:
      besides the `next` pointers of the singly linked case, the single
      element's `prev` is written twice and the element swapped in keeps the
      old one as its `prev`, so the one-element list that should result has
      neither pointer on itself. */
  lemma ExchangeWithSingletonBreaksList2()
    ensures var links, prevs := map[1 := 1, 2 := 3, 3 := 2], map[1 := 1, 2 := 3, 3 := 2];
      var mine := Side(Some(1), Iter(Some(1), Some(1), Some(1), None, false, false, false));
      var other := Side(Some(3), Iter(Some(3), Some(2), Some(3), None, false, false, false));
      var r := ExchangeAsWritten2(links, prevs, false, mine, other);
      && Holds2(links, prevs, mine.last, [1]) && At(mine.it, [1], 0)
      && Holds2(links, prevs, other.last, [2, 3]) && At(other.it, [2, 3], 0)
      && r.Ok? && r.value.mine.last == Some(2)
      && r.value.links == map[1 := 3, 2 := 1, 3 := 1] && r.value.prevs == map[1 := 2, 2 := 1, 3 := 1]
      && !Holds2(r.value.links, r.value.prevs, r.value.mine.last, [2])
  {
    Unrepeated([2, 3]);
    var r := ExchangeAsWritten2(map[1 := 1, 2 := 3, 3 := 2], map[1 := 1, 2 := 3, 3 := 2], false,
      Side(Some(1), Iter(Some(1), Some(1), Some(1), None, false, false, false)),
      Side(Some(3), Iter(Some(3), Some(2), Some(3), None, false, false, false)));
    assert r.value.prevs[2] == 1;
  }

  /** The corrected exchange on the same input leaves a one-element first
      list and the second list with the element swapped in, in both
      directions. */
  lemma ExchangeWithSingletonCorrected2()
    ensures var links, prevs := map[1 := 1, 2 := 3, 3 := 2], map[1 := 1, 2 := 3, 3 := 2];
      var mine := Side(Some(1), Iter(Some(1), Some(1), Some(1), None, false, false, false));
      var other := Side(Some(3), Iter(Some(3), Some(2), Some(3), None, false, false, false));
      var r := Exchange2(links, prevs, mine, other);
      && r.Ok?
      && Holds2(r.value.links, r.value.prevs, r.value.mine.last, [2])
      && Holds2(r.value.links, r.value.prevs, r.value.other.last, [1, 3])
  {
    Unrepeated([1, 3]);
  }

  /** Exchanging within one list while the first iterator stands on the last
      element: the pointers in both directions are right, but `last` stays
      on the element that has left the end, so the list reads as a rotation
      of the intended one. */
  lemma ExchangeAtLastRotatesList2()
    ensures var links, prevs := map[1 := 2, 2 := 3, 3 := 1], map[1 := 3, 2 := 1, 3 := 2];
      var mine := Side(Some(3), Iter(Some(2), Some(3), Some(1), None, false, false, false));
      var other := Side(Some(3), Iter(Some(3), Some(1), Some(2), None, false, false, false));
      var r := ExchangeAsWritten2(links, prevs, true, mine, other);
      && Holds2(links, prevs, mine.last, [1, 2, 3]) && At(mine.it, [1, 2, 3], 2) && At(other.it, [1, 2, 3], 0)
      && r.Ok? && r.value.mine.last == Some(3)
      && Holds2(r.value.links, r.value.prevs, r.value.mine.last, [2, 1, 3])
      && !Holds2(r.value.links, r.value.prevs, r.value.mine.last, [3, 2, 1])
  {
    CountingRing();
    var r := ExchangeAsWritten2(map[1 := 2, 2 := 3, 3 := 1], map[1 := 3, 2 := 1, 3 := 2], true,
      Side(Some(3), Iter(Some(2), Some(3), Some(1), None, false, false, false)),
      Side(Some(3), Iter(Some(3), Some(1), Some(2), None, false, false, false)));
    assert r.value.links == map[1 := 3, 2 := 1, 3 := 2];
    assert r.value.prevs == map[1 := 2, 2 := 3, 3 := 1];
    RotatedRing();
  }

  /** The ring 1, 2, 3 in both directions, read from 3. */
  lemma CountingRing()
    ensures Holds2(map[1 := 2, 2 := 3, 3 := 1], map[1 := 3, 2 := 1, 3 := 2], Some(3), [1, 2, 3])
  {
    Unrepeated([1, 2, 3]);
  }

  /** The pointers the exchange above leaves: the ring 2, 1, 3 in both
      directions, read from 3. */
  lemma RotatedRing()
    ensures var links, prevs := map[1 := 3, 2 := 1, 3 := 2], map[1 := 2, 2 := 3, 3 := 1];
      && Holds2(links, prevs, Some(3), [2, 1, 3])
      && !Holds2(links, prevs, Some(3), [3, 2, 1])
  {
    Unrepeated([2, 1, 3]);
  }

  /** The corrected exchange on the same input yields the swapped list. */
  lemma ExchangeAtLastCorrected2()
    ensures var links, prevs := map[1 := 2, 2 := 3, 3 := 1], map[1 := 3, 2 := 1, 3 := 2];
      var mine := Side(Some(3), Iter(Some(2), Some(3), Some(1), None, false, false, false));
      var other := Side(Some(3), Iter(Some(3), Some(1), Some(2), None, false, false, false));
      var r := Exchange2(links, prevs, mine, other);
      && r.Ok? && Holds2(r.value.links, r.value.prevs, r.value.mine.last, [3, 2, 1])
  {
    Unrepeated([3, 2, 1]);
  }

  /** The `prev` writes after the walk of `extract_sublist`: the sublist's
      first element gets its last as `prev`, and, unless the sublist was the
      whole list, the element after the sublist gets the one before it. */
  function ClosePrevs(prevs: Prevs, mine: Iter, other: Iter): (r: Prevs)
    requires mine.current.Some? && mine.prev.Some? && other.current.Some?
  {
    var x, y := mine.current.value, other.current.value;
    if mine.prev == other.current then prevs[x := y]
    else prevs[x := y][other.next.GetOr(0) := mine.prev.value]
  }

  lemma BackedRotation(prevs: Prevs, s: seq<Node>, i: nat)
    requires Backed(prevs, s) && i < |s|
    ensures Backed(prevs, Rotation(s, i))
  {
    var n := |s|;
    var r := Rotation(s, i);
    forall k | 0 <= k < n
      ensures r[k] in prevs && prevs[r[k]] == r[Pred(k, n)]
    {
      var f := Fwd(i, k, n);
      assert prevs[s[f]] == s[Pred(f, n)];
      assert Pred(f, n) == Fwd(i, Pred(k, n), n);
    }
  }

  /** Cutting a ring after its element `d` and giving the first element `d`
      as `prev` closes the front part backwards ... */
  lemma BackedFront(prevs: Prevs, r: seq<Node>, d: nat)
    requires Backed(prevs, r) && Distinct(r) && d + 1 < |r|
    ensures Backed(prevs[r[0] := r[d]][r[d + 1] := r[|r| - 1]], r[..d + 1])
  {
    var p := prevs[r[0] := r[d]][r[d + 1] := r[|r| - 1]];
    var f := r[..d + 1];
    forall k | 0 <= k < |f|
      ensures f[k] in p && p[f[k]] == f[Pred(k, |f|)]
    {
      assert f[k] == r[k] && r[k] != r[d + 1];
      if k > 0 {
        assert r[k] != r[0];
        assert prevs[r[k]] == r[Pred(k, |r|)];
      }
    }
  }

  /** ... and giving the element after the cut the ring's last element as
      `prev` closes the back part backwards. */
  lemma BackedBack(prevs: Prevs, r: seq<Node>, d: nat)
    requires Backed(prevs, r) && Distinct(r) && d + 1 < |r|
    ensures Backed(prevs[r[0] := r[d]][r[d + 1] := r[|r| - 1]], r[d + 1..])
  {
    var p := prevs[r[0] := r[d]][r[d + 1] := r[|r| - 1]];
    var b := r[d + 1..];
    forall k | 0 <= k < |b|
      ensures b[k] in p && p[b[k]] == b[Pred(k, |b|)]
    {
      assert b[k] == r[d + 1 + k] && r[d + 1 + k] != r[0];
      if k > 0 {
        assert r[d + 1 + k] != r[d + 1];
        assert prevs[r[d + 1 + k]] == r[Pred(d + 1 + k, |r|)];
        assert b[k - 1] == r[d + k];
      }
    }
  }

  /** Closing the walked range of a doubly linked list in the `prev`
      direction: the sublist and the rest both come out closed. */
  lemma ClosePrevsPart(links: Links, prevs: Prevs, mine: Iter, other: Iter, s: seq<Node>, i: nat, j: nat)
    requires Ring(links, s) && Backed(prevs, s) && At(mine, s, i) && At(other, s, j) && Dist(i, j, |s|) + 1 < |s|
    ensures Backed(ClosePrevs(prevs, mine, other), Span(s, i, j))
    ensures Backed(ClosePrevs(prevs, mine, other), Rest(s, i, j))
  {
    RotatedIters(mine, other, s, i, j);
    RotationRing(links, s, i);
    BackedRotation(prevs, s, i);
    var rot, d := Rotation(s, i), Dist(i, j, |s|);
    assert mine.prev != other.current by { assert rot[d] != rot[|rot| - 1]; }
    BackedFront(prevs, rot, d);
    BackedBack(prevs, rot, d);
  }

  lemma ClosePrevsWhole(links: Links, prevs: Prevs, mine: Iter, other: Iter, s: seq<Node>, i: nat, j: nat)
    requires Backed(prevs, s) && At(mine, s, i) && At(other, s, j) && Dist(i, j, |s|) + 1 == |s|
    ensures Backed(ClosePrevs(prevs, mine, other), Span(s, i, j))
  {
    RotatedIters(mine, other, s, i, j);
    BackedRotation(prevs, s, i);
    var rot := Rotation(s, i);
    assert Span(s, i, j) == rot;
    assert prevs[rot[0]] == rot[|rot| - 1];
    assert ClosePrevs(prevs, mine, other) == prevs;
  }

  /** `extract_sublist` on a doubly linked list: the walk and the `next`
      work are those of the singly linked list; both the sublist and what is
      left of the source come out closed in the `prev` direction too. */
  method ExtractSublist2(links: Links, prevs: Prevs, last: Option<Node>, mine: Iter, other: Iter,
                         ghost s: seq<Node>, ghost i: nat, ghost j: nat)
    returns (r: Result<Extraction, ListError>, prevs': Prevs)
    requires Holds2(links, prevs, last, s) && At(mine, s, i) && j < |s|
    requires other.current == Some(s[j]) ==> At(other, s, j)
    requires other.current.Some? && other.current.value in s ==> other.current == Some(s[j])
    ensures r.Err? <==> other.current != Some(s[j])
    ensures r.Err? ==> r.error == BadSublist && prevs' == prevs
    ensures r.Ok? ==> r.value.sublistLast == s[j] && Holds2(r.value.links, prevs', Some(s[j]), Span(s, i, j))
    ensures r.Ok? && |Rest(s, i, j)| == 0 ==>
      && r.value.sourceLast == None
      && r.value.start.prev == r.value.start.current == r.value.start.next == None
      && r.value.end.prev == r.value.end.current == r.value.end.next == None
    ensures r.Ok? && |Rest(s, i, j)| > 0 ==>
      && Ring(r.value.links, Rest(s, i, j)) && Backed(prevs', Rest(s, i, j))
      && r.value.sourceLast == (if PassesEnd(i, Dist(i, j, |s|) + 1, |s|) then Some(s[Pred(i, |s|)]) else last)
      && Gap(r.value.start, Rest(s, i, j), |Rest(s, i, j)| - 1)
      && Gap(r.value.end, Rest(s, i, j), |Rest(s, i, j)| - 1)
  {
    r := ExtractSublist(links, last, mine, other, s, i, j);
    prevs' := prevs;
    if r.Ok? {
      prevs' := ClosePrevs(prevs, mine, other);
      if Dist(i, j, |s|) + 1 < |s| {
        ClosePrevsPart(links, prevs, mine, other, s, i, j);
      } else {
        ClosePrevsWhole(links, prevs, mine, other, s, i, j);
      }
    }
  }
}
