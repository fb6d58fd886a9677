/** Iterators over the singly linked lists (`ELIST_ITERATOR`): stepping
    forwards, looking ahead, moving to the end, exchanging the elements under
    two iterators and cutting a sublist out.  An iterator keeps the links
    before, at and after its position; after its element has been extracted
    `current` is null and `prev`/`next` bracket the gap.  The cycle-point
    fields support the "visit every element once" loops. */
module EListIterator {
  import opened Wrappers
  import opened Circular
  import opened ERing

  datatype Iter = Iter(
    prev: Option<Node>, current: Option<Node>, next: Option<Node>,
    cyclePt: Option<Node>, startedCycling: bool,
    exCurrentWasLast: bool, exCurrentWasCyclePt: bool)

  /** The iterator stands on position `i` of the list `s`. */
  ghost predicate At(it: Iter, s: seq<Node>, i: nat) {
    && i < |s|
    && it.current == Some(s[i])
    && it.prev == Some(s[Pred(i, |s|)])
    && it.next == Some(s[Succ(i, |s|)])
  }

  /** The iterator's element was extracted; it stands in the gap after position `j`. */
  ghost predicate Gap(it: Iter, s: seq<Node>, j: nat) {
    && j < |s|
    && it.current == None
    && it.prev == Some(s[j])
    && it.next == Some(s[Succ(j, |s|)])
  }

  /** A fresh iterator on the list: current is the first element, or
      everything is null on an empty list. */
  function Start(links: Links, last: Option<Node>): (it: Iter)
    requires last.Some? ==> last.value in links && links[last.value] in links
    ensures it.prev == last
    ensures !it.startedCycling && !it.exCurrentWasLast && !it.exCurrentWasCyclePt
  {
    match last
    case None => Iter(None, None, None, None, false, false, false)
    case Some(l) => Iter(last, Some(links[l]), Some(links[links[l]]), None, false, false, false)
  }

  lemma StartAt(links: Links, last: Option<Node>, s: seq<Node>)
    requires Holds(links, last, s)
    ensures s == [] ==> Start(links, last).current.None?
    ensures s != [] ==> At(Start(links, last), s, 0)
  {
  }

  /** Records the current position (or the gap) as the place where a full
      cycle ends. */
  function MarkCyclePt(it: Iter): (r: Iter)
    ensures it.current.Some? ==> r.cyclePt == it.current
    ensures !r.startedCycling
    ensures r.(cyclePt := it.cyclePt, startedCycling := it.startedCycling, exCurrentWasCyclePt := it.exCurrentWasCyclePt) == it
  {
    if it.current.Some? then it.(cyclePt := it.current, startedCycling := false)
    else it.(exCurrentWasCyclePt := true, startedCycling := false)
  }

  /** A full cycle is complete: the list is empty, or the iterator has moved
      and is back at its cycle point. */
  predicate CycledList(last: Option<Node>, it: Iter) {
    last.None? || (it.current == it.cyclePt && it.startedCycling)
  }

  /** Steps to the next element and returns it; nothing happens on an empty list. */
  function Forward(links: Links, last: Option<Node>, it: Iter): (r: (Iter, Option<Node>))
    requires last.Some? ==> it.next.Some? && it.next.value in links
    ensures last.None? ==> r == (it, None)
    ensures last.Some? ==> r.1 == r.0.current == it.next
  {
    if last.None? then (it, None)
    else
      var moved :=
        if it.current.Some? then it.(prev := it.current, startedCycling := true)
        else if it.exCurrentWasCyclePt then it.(cyclePt := it.next)
        else it;
      var cur := it.next.value;
      (moved.(current := Some(cur), next := Some(links[cur])), Some(cur))
  }

  /** From position `i` the iterator moves to the following position, which
      after the last element is the first; a full cycle has started. */
  lemma ForwardAt(links: Links, last: Option<Node>, s: seq<Node>, it: Iter, i: nat)
    requires last.Some? && Chained(links, s) && At(it, s, i)
    ensures At(Forward(links, last, it).0, s, Succ(i, |s|))
    ensures Forward(links, last, it).1 == Some(s[Succ(i, |s|)])
    ensures i == |s| - 1 ==> Forward(links, last, it).1 == Some(s[0])
    ensures Forward(links, last, it).0.startedCycling
    ensures Forward(links, last, it).0.cyclePt == it.cyclePt
  {
    assert links[s[Succ(i, |s|)]] == s[Succ(Succ(i, |s|), |s|)];
  }

  /** From the gap after position `j` the iterator moves onto the element
      after the gap; if the extracted element was the cycle point, that
      element becomes the cycle point. */
  lemma ForwardGap(links: Links, last: Option<Node>, s: seq<Node>, it: Iter, j: nat)
    requires last.Some? && Chained(links, s) && Gap(it, s, j)
    ensures At(Forward(links, last, it).0, s, Succ(j, |s|))
    ensures Forward(links, last, it).0.cyclePt
      == (if it.exCurrentWasCyclePt then Some(s[Succ(j, |s|)]) else it.cyclePt)
    ensures Forward(links, last, it).0.startedCycling == it.startedCycling
  {
    assert links[s[Succ(j, |s|)]] == s[Succ(Succ(j, |s|), |s|)];
  }

  /** The position `m` steps on from `k`, going round as often as needed. */
  function Ahead(k: nat, m: nat, n: nat): (j: nat)
    requires k < n
    ensures j < n
    decreases m
  {
    if m == 0 then k else Ahead(Succ(k, n), m - 1, n)
  }

  /** Follows `m` next pointers from `p`; null when one is missing. */
  function Follow(links: Links, p: Node, m: nat): (r: Option<Node>)
    decreases m
  {
    if m == 0 then Some(p)
    else if p in links then Follow(links, links[p], m - 1)
    else None
  }

  lemma {:induction false} FollowRing(links: Links, s: seq<Node>, k: nat, m: nat)
    requires Chained(links, s) && k < |s|
    ensures Follow(links, s[k], m) == Some(s[Ahead(k, m, |s|)])
    decreases m
  {
    if m == 0 {
      assert Ahead(k, m, |s|) == k;
    } else {
      var k1 := Succ(k, |s|);
      var p := s[k];
      assert p in links && links[p] == s[k1];
      FollowRing(links, s, k1, m - 1);
      assert Follow(links, p, m) == Follow(links, s[k1], m - 1);
      assert Ahead(k, m, |s|) == Ahead(k1, m - 1, |s|);
    }
  }

  /** The element `offset` places from the iterator's position: `prev` for
      -1, otherwise found by walking forwards from the current element (from
      `prev` when the current one was extracted).  An offset below -1, which
      only a debug build rejects, walks no steps. */
  function DataRelative(links: Links, it: Iter, offset: int): (r: Option<Node>)
    requires -128 <= offset < 128
  {
    if offset == -1 then it.prev
    else
      var from := if it.current.Some? then it.current else it.prev;
      match from
      case None => None
      case Some(p) => Follow(links, p, if offset > 0 then offset else 0)
  }

  lemma DataRelativeAt(links: Links, last: Option<Node>, s: seq<Node>, it: Iter, i: nat, offset: int)
    requires Holds(links, last, s) && At(it, s, i) && -1 <= offset < 128
    ensures offset == -1 ==> DataRelative(links, it, offset) == Some(s[Pred(i, |s|)])
    ensures offset >= 0 ==> DataRelative(links, it, offset) == Some(s[Ahead(i, offset, |s|)])
  {
    if offset >= 0 {
      FollowRing(links, s, i, offset);
    }
  }

  lemma DataRelativeGap(links: Links, last: Option<Node>, s: seq<Node>, it: Iter, j: nat, offset: int)
    requires Holds(links, last, s) && Gap(it, s, j) && -1 <= offset < 128
    ensures offset == -1 ==> DataRelative(links, it, offset) == Some(s[j])
    ensures offset >= 0 ==> DataRelative(links, it, offset) == Some(s[Ahead(j, offset, |s|)])
  {
    if offset >= 0 {
      FollowRing(links, s, j, offset);
    }
  }

  /** The iterator is on the list `s`: at position `i`, or (`deleted`) in the
      gap after it; on an empty list it has no current element. */
  ghost predicate OnList(it: Iter, s: seq<Node>, i: nat, deleted: bool) {
    if s == [] then it.current.None?
    else if deleted then Gap(it, s, i) else At(it, s, i)
  }

  /** Steps forwards until the current element is the list's last one. */
  method MoveToLast(links: Links, last: Option<Node>, it: Iter, ghost s: seq<Node>, ghost i: nat, ghost deleted: bool)
    returns (it': Iter, r: Option<Node>)
    requires Holds(links, last, s) && OnList(it, s, i, deleted)
    ensures r == last == it'.current
    ensures s != [] ==> At(it', s, |s| - 1)
    ensures s == [] ==> it' == it
  {
    it' := it;
    ghost var pos, del := i, deleted;
    while it'.current != last
      invariant OnList(it', s, pos, del)
      invariant s == [] ==> it' == it
      decreases if s == [] then 0 else if del then |s| else |s| - 1 - pos
    {
      if del {
        ForwardGap(links, last, s, it', pos);
      } else {
        ForwardAt(links, last, s, it', pos);
      }
      it' := Forward(links, last, it').0;
      pos, del := Succ(pos, |s|), false;
    }
    r := it'.current;
    if s != [] {
      assert it'.current == Some(s[|s| - 1]);
      assert !del;
      assert s[pos] == s[|s| - 1];
    }
  }

  /** A list (its `last` pointer) and an iterator over it: one party to an exchange. */
  datatype Side = Side(last: Option<Node>, it: Iter)

  datatype Exchanged = Exchanged(links: Links, mine: Side, other: Side)

  /** A current element comes with the links on either side of it. */
  predicate Bracketed(it: Iter) {
    it.current.Some? ==> it.prev.Some? && it.next.Some?
  }

  /** `exchange` as the source writes it.  `same` says the two iterators are
      on one list, so that `mine.last` and `other.last` are one variable and
      the second update of it sees the first. */
  function ExchangeAsWritten(links: Links, same: bool, mine: Side, other: Side): (r: Result<Exchanged, ListError>)
    requires same ==> mine.last == other.last
    requires Bracketed(mine.it) && Bracketed(other.it)
    ensures mine.last.None? || other.last.None? || mine.it.current == other.it.current
      ==> r == Ok(Exchanged(links, mine, other))
    ensures r.Err? <==> mine.last.Some? && other.last.Some? && mine.it.current != other.it.current
                        && (mine.it.current.None? || other.it.current.None?)
    ensures r.Err? ==> r.error == DontExchangeDeleted
    ensures same && r.Ok? ==> r.value.mine.last == r.value.other.last
  {
    if mine.last.None? || other.last.None? || mine.it.current == other.it.current then
      Ok(Exchanged(links, mine, other))
    else if mine.it.current.None? || other.it.current.None? then
      Err(DontExchangeDeleted)
    else
      var x, y := mine.it.current.value, other.it.current.value;
      var ap, an := mine.it.prev.value, mine.it.next.value;
      var bp, bn := other.it.prev.value, other.it.next.value;
      var a, b := mine.it, other.it;
      var (links', a', b') :=
        if an == y || bn == x then
          if an == y && bn == x then
            (links, a.(prev := Some(x), next := Some(x)), b.(prev := Some(y), next := Some(y)))
          else if bn == x then
            (links[bp := x][y := an][x := y], a.(prev := Some(x)), b.(next := Some(y)))
          else
            (links[ap := y][x := bn][y := x], a.(next := Some(x)), b.(prev := Some(y)))
        else
          (links[ap := y][x := bn][bp := x][y := an], a, b);
      var lastMine := if mine.last == Some(x) then Some(y) else mine.last;
      var lastOther0 := if same then lastMine else other.last;
      var lastOther := if lastOther0 == Some(y) then Some(x) else lastOther0;
      var cycMine := if Some(x) == a.cyclePt then b.cyclePt else a.cyclePt;
      var cycOther := if Some(y) == b.cyclePt then cycMine else b.cyclePt;
      Ok(Exchanged(links',
        Side(if same then lastOther else lastMine, a'.(current := Some(y), cyclePt := cycMine)),
        Side(lastOther, b'.(current := Some(x), cyclePt := cycOther))))
  }

  /** `exchange` as evidently intended: every pointer that named `x` names
      `y` and the other way round, so the links before, at and after the two
      elements, both lists' `last` and both iterators' neighbours all follow
      the swap.  The cycle points are updated as the source does. */
  function Exchange(links: Links, mine: Side, other: Side): (r: Result<Exchanged, ListError>)
    requires Bracketed(mine.it) && Bracketed(other.it)
    ensures mine.last.None? || other.last.None? || mine.it.current == other.it.current
      ==> r == Ok(Exchanged(links, mine, other))
    ensures r.Err? <==> mine.last.Some? && other.last.Some? && mine.it.current != other.it.current
                        && (mine.it.current.None? || other.it.current.None?)
    ensures r.Err? ==> r.error == DontExchangeDeleted
  {
    if mine.last.None? || other.last.None? || mine.it.current == other.it.current then
      Ok(Exchanged(links, mine, other))
    else if mine.it.current.None? || other.it.current.None? then
      Err(DontExchangeDeleted)
    else
      var x, y := mine.it.current.value, other.it.current.value;
      var a, b := mine.it, other.it;
      var links' := links[a.prev.value := y][b.prev.value := x]
                         [x := Swap(x, y, b.next.value)][y := Swap(x, y, a.next.value)];
      var cycMine := if Some(x) == a.cyclePt then b.cyclePt else a.cyclePt;
      var cycOther := if Some(y) == b.cyclePt then cycMine else b.cyclePt;
      Ok(Exchanged(links',
        Side(SwapOpt(x, y, mine.last),
             a.(prev := SwapOpt(x, y, a.prev), current := Some(y), next := SwapOpt(x, y, a.next), cyclePt := cycMine)),
        Side(SwapOpt(x, y, other.last),
             b.(prev := SwapOpt(x, y, b.prev), current := Some(x), next := SwapOpt(x, y, b.next), cyclePt := cycOther))))
  }

  /** Two iterators on one list, or on two lists that share no link. */
  ghost predicate ExchangeReady(links: Links, mine: Side, other: Side, s: seq<Node>, t: seq<Node>, i: nat, j: nat) {
    && Holds(links, mine.last, s) && Holds(links, other.last, t)
    && At(mine.it, s, i) && At(other.it, t, j)
    && (s == t || Disjoint(s, t))
  }

  /** In either of two lists that are one or share no link, the only link
      whose `next` is `s[i]` is the one before it. */
  lemma OnlyPredecessor(links: Links, s: seq<Node>, t: seq<Node>, i: nat, q: Node)
    requires Ring(links, s) && Chained(links, t) && i < |s|
    requires s == t || Disjoint(s, t)
    requires q in s || q in t
    ensures q in links
    ensures links[q] == s[i] ==> q == s[Pred(i, |s|)]
  {
    if q in s {
      var k :| 0 <= k < |s| && s[k] == q;
      RingPred(links, s, k, i);
    } else {
      var k :| 0 <= k < |t| && t[k] == q;
      assert links[q] == t[Succ(k, |t|)];
    }
  }

  /** The pointer surgery of the corrected exchange, on its own: when `ap`
      and `bp` are the only links pointing at `x` and `y`, every link `q`
      ends up pointing at the swap of what its swap pointed at. */
  lemma SwapSurgery(links: Links, x: Node, y: Node, ap: Node, bp: Node, q: Node)
    requires x != y && x in links && y in links && ap in links && bp in links
    requires links[ap] == x && links[bp] == y
    requires q in links && Swap(x, y, q) in links
    requires links[Swap(x, y, q)] == x ==> Swap(x, y, q) == ap
    requires links[Swap(x, y, q)] == y ==> Swap(x, y, q) == bp
    ensures var r := links[ap := y][bp := x][x := Swap(x, y, links[y])][y := Swap(x, y, links[x])];
      q in r && r[q] == Swap(x, y, links[Swap(x, y, q)])
  {
  }

  /** After the corrected exchange, each link's swapped image points at the
      swapped image of its old successor. */
  lemma ExchangeNext(links: Links, mine: Side, other: Side, s: seq<Node>, t: seq<Node>, i: nat, j: nat, p: Node)
    requires ExchangeReady(links, mine, other, s, t, i, j) && s[i] != t[j]
    requires p in s || p in t
    ensures var x, y := s[i], t[j];
      var r := Exchange(links, mine, other).value.links;
      Swap(x, y, p) in r && r[Swap(x, y, p)] == Swap(x, y, links[p])
  {
    var x, y := s[i], t[j];
    var q := Swap(x, y, p);
    assert q in s || q in t;
    assert p in links && q in links;
    assert s == t || Disjoint(t, s);
    OnlyPredecessor(links, s, t, i, p);
    OnlyPredecessor(links, t, s, j, p);
    var ap, bp := mine.it.prev.value, other.it.prev.value;
    Around(links, s, i);
    Around(links, t, j);
    SwapSurgery(links, x, y, ap, bp, q);
  }

  /** What the corrected exchange leaves in each field, case by case. */
  lemma ExchangeFields(links: Links, mine: Side, other: Side, x: Node, y: Node)
    requires Bracketed(mine.it) && Bracketed(other.it)
    requires mine.last.Some? && other.last.Some?
    requires mine.it.current == Some(x) && other.it.current == Some(y) && x != y
    ensures var r := Exchange(links, mine, other);
      && r.Ok?
      && r.value.links == links[mine.it.prev.value := y][other.it.prev.value := x]
                               [x := Swap(x, y, other.it.next.value)][y := Swap(x, y, mine.it.next.value)]
      && r.value.mine.last == SwapOpt(x, y, mine.last)
      && r.value.other.last == SwapOpt(x, y, other.last)
      && r.value.mine.it.prev == SwapOpt(x, y, mine.it.prev)
      && r.value.mine.it.current == Some(y)
      && r.value.mine.it.next == SwapOpt(x, y, mine.it.next)
      && r.value.other.it.prev == SwapOpt(x, y, other.it.prev)
      && r.value.other.it.current == Some(x)
      && r.value.other.it.next == SwapOpt(x, y, other.it.next)
  {
  }

  /** An iterator whose three links were swapped stands at the same
      position of the swapped list. */
  lemma SwapAt(it: Iter, it': Iter, s: seq<Node>, i: nat, x: Node, y: Node)
    requires At(it, s, i)
    requires it'.prev == SwapOpt(x, y, it.prev) && it'.next == SwapOpt(x, y, it.next)
    requires it'.current == SwapOpt(x, y, it.current)
    ensures At(it', SwapSeq(x, y, s), i)
  {
    var s' := SwapSeq(x, y, s);
    assert s'[Pred(i, |s|)] == Swap(x, y, s[Pred(i, |s|)]);
    assert s'[i] == Swap(x, y, s[i]);
    assert s'[Succ(i, |s|)] == Swap(x, y, s[Succ(i, |s|)]);
  }

  /** Both lists come out of the corrected exchange as rings with the two
      elements swapped. */
  lemma ExchangeRings(links: Links, mine: Side, other: Side, s: seq<Node>, t: seq<Node>, i: nat, j: nat)
    requires ExchangeReady(links, mine, other, s, t, i, j) && s[i] != t[j]
    ensures Exchange(links, mine, other).Ok?
    ensures Ring(Exchange(links, mine, other).value.links, SwapSeq(s[i], t[j], s))
    ensures Ring(Exchange(links, mine, other).value.links, SwapSeq(s[i], t[j], t))
  {
    var x, y := s[i], t[j];
    var r := Exchange(links, mine, other).value.links;
    forall k | 0 <= k < |s|
      ensures Swap(x, y, s[k]) in r && r[Swap(x, y, s[k])] == Swap(x, y, links[s[k]])
    {
      ExchangeNext(links, mine, other, s, t, i, j, s[k]);
    }
    SwappedRing(links, r, s, x, y);
    forall k | 0 <= k < |t|
      ensures Swap(x, y, t[k]) in r && r[Swap(x, y, t[k])] == Swap(x, y, links[t[k]])
    {
      ExchangeNext(links, mine, other, s, t, i, j, t[k]);
    }
    SwappedRing(links, r, t, x, y);
  }

  /** The corrected exchange swaps the two elements: each list reads as before
      with `x` and `y` in each other's places, its `last` included, and each
      iterator stands where it stood, now on the other's former element. */
  lemma ExchangeSwaps(links: Links, mine: Side, other: Side, s: seq<Node>, t: seq<Node>, i: nat, j: nat)
    requires ExchangeReady(links, mine, other, s, t, i, j) && s[i] != t[j]
    ensures var r := Exchange(links, mine, other);
      && r.Ok?
      && Holds(r.value.links, r.value.mine.last, SwapSeq(s[i], t[j], s))
      && Holds(r.value.links, r.value.other.last, SwapSeq(s[i], t[j], t))
      && At(r.value.mine.it, SwapSeq(s[i], t[j], s), i)
      && At(r.value.other.it, SwapSeq(s[i], t[j], t), j)
      && r.value.mine.it.current == other.it.current
      && r.value.other.it.current == mine.it.current
  {
    var x, y := s[i], t[j];
    ExchangeFields(links, mine, other, x, y);
    ExchangeRings(links, mine, other, s, t, i, j);
    var e := Exchange(links, mine, other).value;
    SwapHolds(e.links, mine.last, s, x, y);
    SwapHolds(e.links, other.last, t, x, y);
    SwapAt(mine.it, e.mine.it, s, i, x, y);
    SwapAt(other.it, e.other.it, t, j, x, y);
  }

  /** The pointers around the two elements, as they stand before an exchange. */
  ghost predicate Surroundings(links: Links, mine: Side, other: Side, x: Node, y: Node) {
    && mine.last.Some? && other.last.Some?
    && mine.it.current == Some(x) && other.it.current == Some(y) && x != y
    && mine.it.prev.Some? && mine.it.next.Some? && other.it.prev.Some? && other.it.next.Some?
    && var ap, an, bp, bn := mine.it.prev.value, mine.it.next.value, other.it.prev.value, other.it.next.value;
    && ap in links && x in links && bp in links && y in links
    && links[ap] == x && links[x] == an && links[bp] == y && links[y] == bn
    && ap != x && an != x && bp != y && bn != y
    && (an == y <==> bp == x) && (bn == x <==> ap == y)
  }

  lemma AgreeApart(links: Links, same: bool, mine: Side, other: Side, x: Node, y: Node)
    requires Surroundings(links, mine, other, x, y)
    requires same ==> mine.last == other.last
    requires mine.it.next != Some(y) && other.it.next != Some(x)
    requires same ==> mine.last != Some(x)
    requires !same ==> mine.last != Some(y) && other.last != Some(x)
    ensures ExchangeAsWritten(links, same, mine, other) == Exchange(links, mine, other)
  {
    var ap, an, bp, bn := mine.it.prev.value, mine.it.next.value, other.it.prev.value, other.it.next.value;
    assert links[ap := y][x := bn][bp := x][y := an] == links[ap := y][bp := x][x := Swap(x, y, bn)][y := Swap(x, y, an)];
  }

  lemma AgreeMineFirst(links: Links, same: bool, mine: Side, other: Side, x: Node, y: Node)
    requires Surroundings(links, mine, other, x, y)
    requires same ==> mine.last == other.last
    requires mine.it.next == Some(y) && other.it.next != Some(x)
    requires same ==> mine.last != Some(x)
    requires !same ==> mine.last != Some(y) && other.last != Some(x)
    ensures ExchangeAsWritten(links, same, mine, other) == Exchange(links, mine, other)
  {
    var ap, bn := mine.it.prev.value, other.it.next.value;
    assert links[ap := y][x := bn][y := x] == links[ap := y][x := x][x := Swap(x, y, bn)][y := Swap(x, y, y)];
  }

  lemma AgreeOtherFirst(links: Links, same: bool, mine: Side, other: Side, x: Node, y: Node)
    requires Surroundings(links, mine, other, x, y)
    requires same ==> mine.last == other.last
    requires mine.it.next != Some(y) && other.it.next == Some(x)
    requires same ==> mine.last != Some(x)
    requires !same ==> mine.last != Some(y) && other.last != Some(x)
    ensures ExchangeAsWritten(links, same, mine, other) == Exchange(links, mine, other)
  {
    var an, bp := mine.it.next.value, other.it.prev.value;
    assert links[bp := x][y := an][x := y] == links[y := y][bp := x][x := Swap(x, y, x)][y := Swap(x, y, an)];
  }

  lemma AgreePair(links: Links, same: bool, mine: Side, other: Side, x: Node, y: Node)
    requires Surroundings(links, mine, other, x, y)
    requires same ==> mine.last == other.last
    requires mine.it.next == Some(y) && other.it.next == Some(x)
    requires same ==> mine.last != Some(x)
    requires !same ==> mine.last != Some(y) && other.last != Some(x)
    ensures ExchangeAsWritten(links, same, mine, other) == Exchange(links, mine, other)
  {
    assert links == links[y := y][x := x][x := Swap(x, y, x)][y := Swap(x, y, y)];
  }

  /** Two iterators on one list, or on two lists of two or more elements,
      have the surroundings the exchange relies on. */
  lemma ReadySurroundings(links: Links, mine: Side, other: Side, s: seq<Node>, t: seq<Node>, i: nat, j: nat)
    requires ExchangeReady(links, mine, other, s, t, i, j) && s[i] != t[j]
    requires s != t ==> |s| > 1 && |t| > 1
    ensures Surroundings(links, mine, other, s[i], t[j])
    ensures s != t ==> mine.last != Some(t[j]) && other.last != Some(s[i])
  {
    var x, y := s[i], t[j];
    Around(links, s, i);
    Around(links, t, j);
    assert s == t || Disjoint(t, s);
    var ap, an, bp, bn := mine.it.prev.value, mine.it.next.value, other.it.prev.value, other.it.next.value;
    assert |s| > 1 && |t| > 1 by { if s == t { assert s[j] != s[i]; } }
    assert ap != x && an != x by { assert Pred(i, |s|) != i && Succ(i, |s|) != i; }
    assert bp != y && bn != y by { assert Pred(j, |t|) != j && Succ(j, |t|) != j; }
    OnlyPredecessor(links, s, t, i, y);
    OnlyPredecessor(links, t, s, j, x);
    assert an == y <==> bp == x;
    assert bn == x <==> ap == y;
  }

  /** Away from two inputs (an exchange across
      lists where one list holds a single element, and one within a list whose
      first iterator stands on the last element), the source's exchange is the
      corrected one. */
  lemma ExchangeAsWrittenAgrees(links: Links, same: bool, mine: Side, other: Side, s: seq<Node>, t: seq<Node>, i: nat, j: nat)
    requires ExchangeReady(links, mine, other, s, t, i, j) && s[i] != t[j]
    requires same <==> s == t
    requires same ==> mine.last == other.last && mine.last != mine.it.current
    requires !same ==> |s| > 1 && |t| > 1
    ensures ExchangeAsWritten(links, same, mine, other) == Exchange(links, mine, other)
  {
    ReadySurroundings(links, mine, other, s, t, i, j);
    AgreeSurrounded(links, same, mine, other, s[i], t[j]);
  }

  lemma AgreeSurrounded(links: Links, same: bool, mine: Side, other: Side, x: Node, y: Node)
    requires Surroundings(links, mine, other, x, y)
    requires same ==> mine.last == other.last
    requires same ==> mine.last != Some(x)
    requires !same ==> mine.last != Some(y) && other.last != Some(x)
    ensures ExchangeAsWritten(links, same, mine, other) == Exchange(links, mine, other)
  {
    if mine.it.next == Some(y) && other.it.next == Some(x) {
      AgreePair(links, same, mine, other, x, y);
    } else if mine.it.next == Some(y) {
      AgreeMineFirst(links, same, mine, other, x, y);
    } else if other.it.next == Some(x) {
      AgreeOtherFirst(links, same, mine, other, x, y);
    } else {
      AgreeApart(links, same, mine, other, x, y);
    }
  }

  /** A list's `next` pointers lead from its last element back to it after
      as many steps as the list has elements. */
  lemma LastReturns(links: Links, last: Node, s: seq<Node>)
    requires Holds(links, Some(last), s)
    ensures Follow(links, last, |s|) == Some(last)
  {
    FollowRing(links, s, |s| - 1, |s|);
    AheadFull(|s| - 1, |s|);
  }

  lemma {:induction false} AheadSteps(k: nat, m: nat, n: nat)
    requires k < n && k + m < n
    ensures Ahead(k, m, n) == k + m
    decreases m
  {
    if m > 0 {
      AheadSteps(k + 1, m - 1, n);
    }
  }

  /** Going round a circle of `n` from its last position comes back. */
  lemma AheadFull(k: nat, n: nat)
    requires k == n - 1 && n > 0
    ensures Ahead(k, n, n) == k
  {
    assert Ahead(k, n, n) == Ahead(0, n - 1, n);
    AheadSteps(0, n - 1, n);
  }

  lemma {:induction false} StrayWalk(k: nat)
    ensures var l := map[1 := 3, 2 := 1, 3 := 1];
      Follow(l, 1, k) in {Some(1), Some(3)} && Follow(l, 3, k) in {Some(1), Some(3)}
    decreases k
  {
    if k > 0 {
      StrayWalk(k - 1);
    }
  }

  /** Exchanging the single element of one list with an element of another
      list: the surgery for non-adjacent elements sets the single element's
      `next` twice, so the first list's `last` now leads into the second
      list and never comes back to itself, which no list allows
      (`LastReturns`). */
  lemma ExchangeWithSingletonBreaksList()
    ensures var links := map[1 := 1, 2 := 3, 3 := 2];
      var mine := Side(Some(1), Iter(Some(1), Some(1), Some(1), None, false, false, false));
      var other := Side(Some(3), Iter(Some(3), Some(2), Some(3), None, false, false, false));
      var r := ExchangeAsWritten(links, false, mine, other);
      && Holds(links, mine.last, [1]) && At(mine.it, [1], 0)
      && Holds(links, other.last, [2, 3]) && At(other.it, [2, 3], 0)
      && r.Ok? && r.value.links == map[1 := 3, 2 := 1, 3 := 1] && r.value.mine.last == Some(2)
      && (forall k: nat :: k >= 1 ==> Follow(r.value.links, 2, k) != Some(2))
  {
    Unrepeated([2, 3]);
    var l := map[1 := 3, 2 := 1, 3 := 1];
    forall k: nat | k >= 1
      ensures Follow(l, 2, k) != Some(2)
    {
      StrayWalk(k - 1);
    }
  }

  /** The corrected exchange on the same input leaves a one-element first
      list and the second list with the element swapped in. */
  lemma ExchangeWithSingletonCorrected()
    ensures var links := map[1 := 1, 2 := 3, 3 := 2];
      var mine := Side(Some(1), Iter(Some(1), Some(1), Some(1), None, false, false, false));
      var other := Side(Some(3), Iter(Some(3), Some(2), Some(3), None, false, false, false));
      var r := Exchange(links, mine, other);
      && r.Ok? && Holds(r.value.links, r.value.mine.last, [2]) && Holds(r.value.links, r.value.other.last, [1, 3])
  {
    Unrepeated([1, 3]);
  }

  /** Exchanging within one list while the first iterator stands on the last
      element: `last` is first moved to the other element and then, seen as
      the other iterator's element, moved back, so it stays on the element
      that has left the end.  The pointers are right, but the list read from
      `last` is a rotation of the intended one. */
  lemma ExchangeAtLastRotatesList()
    ensures var links := map[1 := 2, 2 := 3, 3 := 1];
      var mine := Side(Some(3), Iter(Some(2), Some(3), Some(1), None, false, false, false));
      var other := Side(Some(3), Iter(Some(3), Some(1), Some(2), None, false, false, false));
      var r := ExchangeAsWritten(links, true, mine, other);
      && Holds(links, mine.last, [1, 2, 3]) && At(mine.it, [1, 2, 3], 2) && At(other.it, [1, 2, 3], 0)
      && r.Ok? && r.value.links == map[1 := 3, 2 := 1, 3 := 2] && r.value.mine.last == Some(3)
      && Holds(r.value.links, r.value.mine.last, [2, 1, 3])
      && !Holds(r.value.links, r.value.mine.last, [3, 2, 1])
  {
    Unrepeated([1, 2, 3]);
    Unrepeated([2, 1, 3]);
  }

  /** In general: an exchange within one list whose first iterator stands on
      the last element leaves `last` on that element, which has moved to the
      other iterator's place. */
  lemma ExchangeAtLastKeepsLast(links: Links, mine: Side, other: Side, s: seq<Node>, i: nat, j: nat)
    requires ExchangeReady(links, mine, other, s, s, i, j) && s[i] != s[j]
    requires i == |s| - 1
    ensures ExchangeAsWritten(links, true, mine, other).value.mine.last == Some(s[i])
    ensures SwapSeq(s[i], s[j], s)[|s| - 1] == s[j]
  {
  }

  /** The corrected exchange on the same input yields the swapped list. */
  lemma ExchangeAtLastCorrected()
    ensures var links := map[1 := 2, 2 := 3, 3 := 1];
      var mine := Side(Some(3), Iter(Some(2), Some(3), Some(1), None, false, false, false));
      var other := Side(Some(3), Iter(Some(3), Some(1), Some(2), None, false, false, false));
      var r := Exchange(links, mine, other);
      && r.Ok? && Holds(r.value.links, r.value.mine.last, [3, 2, 1])
  {
    Unrepeated([3, 2, 1]);
  }

  /** The outcome of cutting out a sublist: the links, the source list's new
      `last`, the two iterators and the last element of the sublist. */
  datatype Extraction = Extraction(links: Links, sourceLast: Option<Node>, start: Iter, end: Iter, sublistLast: Node)

  /** The inclusive range from position `i` forwards to position `j`, going
      round the end of the list if need be. */
  function Span(s: seq<Node>, i: nat, j: nat): (r: seq<Node>)
    requires i < |s| && j < |s|
    ensures |r| == Dist(i, j, |s|) + 1
  {
    Rotation(s, i)[..Dist(i, j, |s|) + 1]
  }

  /** The elements outside `Span(s, i, j)`, from the one after `j` to the one
      before `i`. */
  function Rest(s: seq<Node>, i: nat, j: nat): (r: seq<Node>)
    requires i < |s| && j < |s|
    ensures |r| == |s| - Dist(i, j, |s|) - 1
  {
    Rotation(s, i)[Dist(i, j, |s|) + 1..]
  }

  /** The walk from position `i` to position `i + k` passes the list's end. */
  predicate PassesEnd(i: nat, k: nat, n: nat) {
    i + k >= n
  }

  /** The walk of `extract_sublist` one step on: the walker, the source's
      `last` and the flags it raises as it passes the list's end and the two
      cycle points. */
  datatype Walk = Walk(temp: Iter, sourceLast: Option<Node>, wasLast: bool, mineWasCyclePt: bool, otherWasCyclePt: bool)

  /** One pass of the loop body of `extract_sublist`, before the step forwards. */
  function WalkStep(links: Links, mine: Iter, other: Iter, w: Walk): (r: Walk)
    requires w.sourceLast.Some? ==> w.temp.next.Some? && w.temp.next.value in links
  {
    var atLast := w.temp.current == w.sourceLast;
    Walk(Forward(links, w.sourceLast, w.temp).0,
         if atLast then mine.prev else w.sourceLast,
         w.wasLast || atLast,
         w.mineWasCyclePt || w.temp.current == mine.cyclePt,
         w.otherWasCyclePt || w.temp.current == other.cyclePt)
  }

  /** The state of the walk after `k` steps from position `i` of `s`. */
  ghost predicate Walked(links: Links, last: Option<Node>, mine: Iter, other: Iter, s: seq<Node>, i: nat, k: nat, w: Walk) {
    && i < |s| && k <= |s|
    && At(w.temp, s, Fwd(i, k, |s|))
    && w.temp.cyclePt == Some(s[i]) && w.temp.startedCycling == (k > 0)
    && w.sourceLast == (if PassesEnd(i, k, |s|) then mine.prev else last)
    && w.wasLast == PassesEnd(i, k, |s|)
    && w.mineWasCyclePt == (mine.cyclePt.Some? && mine.cyclePt.value in Rotation(s, i)[..k])
    && w.otherWasCyclePt == (other.cyclePt.Some? && other.cyclePt.value in Rotation(s, i)[..k])
  }

  lemma WalkOn(links: Links, last: Option<Node>, mine: Iter, other: Iter, s: seq<Node>, i: nat, k: nat, w: Walk)
    requires Holds(links, last, s) && At(mine, s, i) && k < |s|
    requires Walked(links, last, mine, other, s, i, k, w)
    ensures w.sourceLast.Some? && w.temp.next.Some? && w.temp.next.value in links
    ensures Walked(links, last, mine, other, s, i, k + 1, WalkStep(links, mine, other, w))
    ensures WalkStep(links, mine, other, w).temp.prev == Some(s[Fwd(i, k, |s|)])
  {
    var n := |s|;
    var f := Fwd(i, k, n);
    ForwardAt(links, w.sourceLast, s, w.temp, f);
    FwdFacts(i, k, n);
    var rot := Rotation(s, i);
    if mine.cyclePt.Some? {
      PrefixGrows(rot, k, mine.cyclePt.value);
    }
    if other.cyclePt.Some? {
      PrefixGrows(rot, k, other.cyclePt.value);
    }
    assert w.temp.current == w.sourceLast <==> f == n - 1 || (PassesEnd(i, k, n) && f == Pred(i, n));
  }

  /** The invariant of the loop of `extract_sublist` after `k` steps:
      `found` says whether the last element passed was `other`'s, which
      cannot have been passed before. */
  ghost predicate Searching(links: Links, last: Option<Node>, mine: Iter, other: Iter, s: seq<Node>, i: nat, j: nat, k: nat, w: Walk, found: bool) {
    && Walked(links, last, mine, other, s, i, k, w)
    && j < |s|
    && (found <==> k > 0 && other.current == Some(s[Fwd(i, k - 1, |s|)]))
    && (other.current == Some(s[j]) ==> k <= Dist(i, j, |s|) + 1)
  }

  lemma WalkAdvance(links: Links, last: Option<Node>, mine: Iter, other: Iter, s: seq<Node>, i: nat, j: nat, k: nat, w: Walk)
    requires Holds(links, last, s) && At(mine, s, i)
    requires Searching(links, last, mine, other, s, i, j, k, w, false) && !CycledList(w.sourceLast, w.temp)
    ensures k < |s| && w.sourceLast.Some? && w.temp.next.Some? && w.temp.next.value in links
    ensures var w' := WalkStep(links, mine, other, w);
      Searching(links, last, mine, other, s, i, j, k + 1, w', w'.temp.prev == other.current)
  {
    assert Fwd(i, |s|, |s|) == i;
    assert Fwd(i, Dist(i, j, |s|), |s|) == j;
    assert other.current == Some(s[j]) ==> k <= Dist(i, j, |s|);
    WalkOn(links, last, mine, other, s, i, k, w);
  }

  lemma WalkCycled(links: Links, last: Option<Node>, mine: Iter, other: Iter, s: seq<Node>, i: nat, j: nat, k: nat, w: Walk)
    requires Distinct(s) && mine.prev.Some? && last.Some?
    requires Searching(links, last, mine, other, s, i, j, k, w, false) && CycledList(w.sourceLast, w.temp)
    ensures other.current != Some(s[j])
  {
    assert s[Fwd(i, k, |s|)] == s[i];
    assert Fwd(i, k, |s|) == i;
    assert k == |s|;
    assert other.current != Some(s[Fwd(i, k - 1, |s|)]);
    assert Fwd(i, Dist(i, j, |s|), |s|) == j;
  }

  lemma WalkFound(links: Links, last: Option<Node>, mine: Iter, other: Iter, s: seq<Node>, i: nat, j: nat, k: nat, w: Walk)
    requires Distinct(s)
    requires Searching(links, last, mine, other, s, i, j, k, w, true)
    requires other.current.Some? && other.current.value in s ==> other.current == Some(s[j])
    ensures other.current == Some(s[j]) && Walked(links, last, mine, other, s, i, Dist(i, j, |s|) + 1, w)
  {
    var f := Fwd(i, k - 1, |s|);
    assert other.current == Some(s[f]) && s[f] in s;
    FwdFacts(i, k - 1, |s|);
    assert f == j;
    assert k == Dist(i, j, |s|) + 1;
  }

  /** The loop of `extract_sublist`: walks from `mine`'s element until it has
      passed `other`'s, or reports that a full cycle went by without it. */
  method WalkSublist(links: Links, last: Option<Node>, mine: Iter, other: Iter, ghost s: seq<Node>, ghost i: nat, ghost j: nat)
    returns (found: bool, w: Walk)
    requires Holds(links, last, s) && At(mine, s, i) && j < |s|
    requires other.current.Some? && other.current.value in s ==> other.current == Some(s[j])
    ensures found <==> other.current == Some(s[j])
    ensures found ==> Walked(links, last, mine, other, s, i, Dist(i, j, |s|) + 1, w)
  {
    w := Walk(MarkCyclePt(mine), last, false, false, false);
    ghost var k: nat := 0;
    found := false;
    while !found
      invariant Searching(links, last, mine, other, s, i, j, k, w, found)
      decreases |s| - k
    {
      if CycledList(w.sourceLast, w.temp) {
        WalkCycled(links, last, mine, other, s, i, j, k, w);
        return;
      }
      WalkAdvance(links, last, mine, other, s, i, j, k, w);
      w := WalkStep(links, mine, other, w);
      found := w.temp.prev == other.current;
      k := k + 1;
    }
    WalkFound(links, last, mine, other, s, i, j, k, w);
  }

  /** The pointer work after the walk: the sublist is closed into a ring and
      the source list is closed over the gap, or emptied when the sublist was
      all of it. */
  function CloseSublist(links: Links, mine: Iter, other: Iter, w: Walk): (r: Extraction)
    requires mine.current.Some? && mine.prev.Some? && other.current.Some?
    ensures r.sublistLast == other.current.value
  {
    var x, y := mine.current.value, other.current.value;
    var links' := links[y := x];
    var mine' := mine.(exCurrentWasLast := w.wasLast, exCurrentWasCyclePt := w.mineWasCyclePt);
    var other' := other.(exCurrentWasLast := w.wasLast, exCurrentWasCyclePt := w.otherWasCyclePt);
    if mine.prev == other.current then
      Extraction(links', None,
        mine'.(prev := None, current := None, next := None),
        other'.(prev := None, current := None, next := None), y)
    else
      Extraction(links'[mine.prev.value := other.next.GetOr(0)], w.sourceLast,
        mine'.(current := None, next := other.next),
        other'.(prev := mine.prev, current := None), y)
  }

  /** Where the ends of the sublist and of the rest sit in the rotated list. */
  lemma RotationPoints(s: seq<Node>, i: nat, j: nat)
    requires i < |s| && j < |s|
    ensures var rot, d := Rotation(s, i), Dist(i, j, |s|);
      && rot[0] == s[i] && rot[d] == s[j] && rot[|s| - 1] == s[Pred(i, |s|)]
      && (d + 1 < |s| ==> rot[d + 1] == s[Succ(j, |s|)])
  {
    var n, d := |s|, Dist(i, j, |s|);
    if d + 1 < n {
      FwdFacts(i, d, n);
    }
  }

  /** The iterators at the ends of the range, read in the rotated list. */
  lemma RotatedIters(mine: Iter, other: Iter, s: seq<Node>, i: nat, j: nat)
    requires At(mine, s, i) && At(other, s, j)
    ensures var rot, d := Rotation(s, i), Dist(i, j, |s|);
      && mine.current == Some(rot[0]) && mine.prev == Some(rot[|rot| - 1]) && other.current == Some(rot[d])
      && (d + 1 < |rot| ==> other.next == Some(rot[d + 1]))
      && (d + 1 == |rot| ==> other.current == Some(rot[|rot| - 1]))
  {
    RotationPoints(s, i, j);
  }

  /** The sublist is the front `d + 1` links of the ring `r`, which starts
      at `mine`'s element and ends just before it; the rest is the back part. */
  lemma CloseSplit(links: Links, mine: Iter, other: Iter, w: Walk, r: seq<Node>, d: nat)
    requires Ring(links, r) && d + 1 < |r|
    requires mine.current == Some(r[0]) && mine.prev == Some(r[|r| - 1])
    requires other.current == Some(r[d]) && other.next == Some(r[d + 1])
    ensures mine.prev != other.current
    ensures var e, back := CloseSublist(links, mine, other, w), r[d + 1..];
      && Ring(e.links, r[..d + 1]) && Ring(e.links, back)
      && Gap(e.start, back, |back| - 1) && Gap(e.end, back, |back| - 1)
  {
    assert r[d] != r[|r| - 1];
    CloseBoth(links, r, d);
    var back := r[d + 1..];
    assert back[|back| - 1] == r[|r| - 1] && back[0] == r[d + 1];
  }

  /** The sublist is the whole ring `r`. */
  lemma CloseWhole(links: Links, mine: Iter, other: Iter, w: Walk, r: seq<Node>)
    requires Ring(links, r)
    requires mine.current == Some(r[0]) && mine.prev == Some(r[|r| - 1]) && other.current == Some(r[|r| - 1])
    ensures Ring(CloseSublist(links, mine, other, w).links, r)
  {
    CloseFront(links, r, |r| - 1);
    assert r[..|r|] == r;
  }

  /** Closing the walked range: the sublist becomes a ring ending in
      `other`'s element, and whatever is left of the source becomes a ring
      with both iterators in the gap. */
  lemma CloseSublistRings(links: Links, mine: Iter, other: Iter, s: seq<Node>, i: nat, j: nat, w: Walk)
    requires Ring(links, s) && At(mine, s, i) && At(other, s, j)
    ensures var r, rest := CloseSublist(links, mine, other, w), Rest(s, i, j);
      && Holds(r.links, Some(s[j]), Span(s, i, j))
      && (|rest| == 0 <==> mine.prev == other.current)
      && (|rest| > 0 ==> Ring(r.links, rest) && Gap(r.start, rest, |rest| - 1) && Gap(r.end, rest, |rest| - 1))
  {
    if Dist(i, j, |s|) + 1 < |s| {
      CloseSublistPart(links, mine, other, s, i, j, w);
    } else {
      CloseSublistWhole(links, mine, other, s, i, j, w);
    }
  }

  lemma CloseSublistPart(links: Links, mine: Iter, other: Iter, s: seq<Node>, i: nat, j: nat, w: Walk)
    requires Ring(links, s) && At(mine, s, i) && At(other, s, j) && Dist(i, j, |s|) + 1 < |s|
    ensures var r, rest := CloseSublist(links, mine, other, w), Rest(s, i, j);
      && mine.prev != other.current
      && Ring(r.links, Span(s, i, j)) && Ring(r.links, rest)
      && Gap(r.start, rest, |rest| - 1) && Gap(r.end, rest, |rest| - 1)
  {
    RotatedIters(mine, other, s, i, j);
    RotationRing(links, s, i);
    CloseSplit(links, mine, other, w, Rotation(s, i), Dist(i, j, |s|));
  }

  lemma CloseSublistWhole(links: Links, mine: Iter, other: Iter, s: seq<Node>, i: nat, j: nat, w: Walk)
    requires Ring(links, s) && At(mine, s, i) && At(other, s, j) && Dist(i, j, |s|) + 1 == |s|
    ensures mine.prev == other.current && Span(s, i, j) == Rotation(s, i)
    ensures Ring(CloseSublist(links, mine, other, w).links, Rotation(s, i))
  {
    RotatedIters(mine, other, s, i, j);
    RotationRing(links, s, i);
    CloseWhole(links, mine, other, w, Rotation(s, i));
  }

  /** What closing the walked range leaves behind. */
  lemma Extracted(links: Links, last: Option<Node>, mine: Iter, other: Iter, s: seq<Node>, i: nat, j: nat, w: Walk, e: Extraction)
    requires Ring(links, s) && At(mine, s, i) && At(other, s, j)
    requires Walked(links, last, mine, other, s, i, Dist(i, j, |s|) + 1, w)
    requires e == CloseSublist(links, mine, other, w)
    ensures e.sublistLast == s[j] && Holds(e.links, Some(s[j]), Span(s, i, j))
    ensures |Rest(s, i, j)| == 0 ==>
      && e.sourceLast == None
      && e.start.prev == e.start.current == e.start.next == None
      && e.end.prev == e.end.current == e.end.next == None
    ensures |Rest(s, i, j)| > 0 ==>
      && Ring(e.links, Rest(s, i, j))
      && e.sourceLast == (if PassesEnd(i, Dist(i, j, |s|) + 1, |s|) then Some(s[Pred(i, |s|)]) else last)
      && Gap(e.start, Rest(s, i, j), |Rest(s, i, j)| - 1)
      && Gap(e.end, Rest(s, i, j), |Rest(s, i, j)| - 1)
    ensures e.start.exCurrentWasLast == e.end.exCurrentWasLast == PassesEnd(i, Dist(i, j, |s|) + 1, |s|)
    ensures (e.start.exCurrentWasCyclePt <==> mine.cyclePt.Some? && mine.cyclePt.value in Span(s, i, j))
    ensures (e.end.exCurrentWasCyclePt <==> other.cyclePt.Some? && other.cyclePt.value in Span(s, i, j))
  {
    CloseSublistRings(links, mine, other, s, i, j, w);
  }

  /** Cuts the links from `mine`'s element to `other`'s out of the list and
      closes them into a list of their own, whose last element is `other`'s.
      The source keeps the rest; its `last` moves back to the element before
      `mine`'s when the range passed the end of the list, and both iterators
      are left in the gap (or nulled when the whole list went).  It aborts
      when `other`'s element is not on the list. */
  method ExtractSublist(links: Links, last: Option<Node>, mine: Iter, other: Iter, ghost s: seq<Node>, ghost i: nat, ghost j: nat)
    returns (r: Result<Extraction, ListError>)
    requires Holds(links, last, s) && At(mine, s, i) && j < |s|
    requires other.current == Some(s[j]) ==> At(other, s, j)
    requires other.current.Some? && other.current.value in s ==> other.current == Some(s[j])
    ensures r.Err? <==> other.current != Some(s[j])
    ensures r.Err? ==> r.error == BadSublist
    ensures r.Ok? ==> r.value.sublistLast == s[j] && Holds(r.value.links, Some(s[j]), Span(s, i, j))
    ensures r.Ok? && |Rest(s, i, j)| == 0 ==>
      && r.value.sourceLast == None
      && r.value.start.prev == r.value.start.current == r.value.start.next == None
      && r.value.end.prev == r.value.end.current == r.value.end.next == None
    ensures r.Ok? && |Rest(s, i, j)| > 0 ==>
      && Ring(r.value.links, Rest(s, i, j))
      && r.value.sourceLast == (if PassesEnd(i, Dist(i, j, |s|) + 1, |s|) then Some(s[Pred(i, |s|)]) else last)
      && Gap(r.value.start, Rest(s, i, j), |Rest(s, i, j)| - 1)
      && Gap(r.value.end, Rest(s, i, j), |Rest(s, i, j)| - 1)
    ensures r.Ok? ==>
      && r.value.start.exCurrentWasLast == r.value.end.exCurrentWasLast == PassesEnd(i, Dist(i, j, |s|) + 1, |s|)
      && (r.value.start.exCurrentWasCyclePt <==> mine.cyclePt.Some? && mine.cyclePt.value in Span(s, i, j))
      && (r.value.end.exCurrentWasCyclePt <==> other.cyclePt.Some? && other.cyclePt.value in Span(s, i, j))
  {
    var found, w := WalkSublist(links, last, mine, other, s, i, j);
    if !found {
      return Err(BadSublist);
    }
    var e := CloseSublist(links, mine, other, w);
    Extracted(links, last, mine, other, s, i, j, w, e);
    r := Ok(e);
  }
}
