/** Whole-list operations of the doubly linked lists (`ELIST2`) that write
    `prev` pointers: deep copying, sorting, reading a dumped list back and
    taking over a sublist.  Clearing and counting read and write `next`
    pointers only and are the singly linked operations of `EList`. */
module EList2 {
  import opened Wrappers
  import opened Circular
  import opened ERing
  import opened EListIterator
  import opened EList
  import opened EList2Iterator

  /** Adds link `n` after the last one, making it the new last, in both
      directions: `n` goes between the old last and the first. */
  function AppendLink2(links: Links, prevs: Prevs, last: Option<Node>, n: Node): (r: (Links, Prevs, Option<Node>))
    requires last.Some? ==> last.value in links
    ensures r.2 == Some(n)
  {
    var a := AppendLink(links, last, n);
    match last
    case None => (a.0, prevs[n := n], a.1)
    case Some(l) => (a.0, prevs[n := l][links[l] := n], a.1)
  }

  /** The `prev` half of appending to a non-empty list. */
  lemma BackedAppend(prevs: Prevs, s: seq<Node>, n: Node)
    requires Backed(prevs, s) && Distinct(s) && |s| > 0 && n !in s
    ensures Backed(prevs[n := s[|s| - 1]][s[0] := n], s + [n])
  {
    var t := s + [n];
    var p := prevs[n := s[|s| - 1]][s[0] := n];
    forall k | 0 <= k < |t|
      ensures t[k] in p && p[t[k]] == t[Pred(k, |t|)]
    {
      if 0 < k < |s| {
        assert t[k] == s[k] && s[k] != s[0];
        assert prevs[s[k]] == s[Pred(k, |s|)];
      }
    }
  }

  /** Appending a link that is not on the list extends the list by it. */
  lemma AppendHolds2(links: Links, prevs: Prevs, last: Option<Node>, s: seq<Node>, n: Node)
    requires Holds2(links, prevs, last, s) && n !in s
    ensures last.Some? ==> last.value in links
    ensures var a := AppendLink2(links, prevs, last, n);
      Holds2(a.0, a.1, Some(n), s + [n])
  {
    AppendHolds(links, last, s, n);
    if |s| > 0 {
      Around(links, s, |s| - 1);
      BackedAppend(prevs, s, n);
    }
  }

  /** Re-pointing links that are off a list keeps the list. */
  lemma AppendElsewhere2(links: Links, prevs: Prevs, last: Option<Node>, s: seq<Node>, dLast: Option<Node>, n: Node)
    requires Holds2(links, prevs, last, s) && n !in s
    requires dLast.Some? ==> dLast.value !in s && dLast.value in links && links[dLast.value] !in s
    ensures Holds2(AppendLink2(links, prevs, dLast, n).0, AppendLink2(links, prevs, dLast, n).1, last, s)
  {
    AppendElsewhere(links, last, s, dLast, n);
    var p := AppendLink2(links, prevs, dLast, n).1;
    forall k | 0 <= k < |s|
      ensures s[k] in p && p[s[k]] == s[Pred(k, |s|)]
    {
      assert prevs[s[k]] == s[Pred(k, |s|)];
    }
  }

  /** The state of `internal_deep_copy` after copying `k` elements, in both
      directions. */
  ghost predicate Copying2(links: Links, prevs: Prevs, last: Option<Node>, copyLast: Option<Node>,
                           copier: Node -> Node, s: seq<Node>, k: nat, from: Iter) {
    && Copying(links, last, copyLast, copier, s, k, from)
    && Backed(prevs, s) && Backed(prevs, Copies(copier, s[..k]))
  }

  lemma CopyStep2(links: Links, prevs: Prevs, last: Option<Node>, copyLast: Option<Node>,
                  copier: Node -> Node, s: seq<Node>, k: nat, from: Iter)
    requires Copying2(links, prevs, last, copyLast, copier, s, k, from) && !CycledList(last, from)
    requires forall k :: 0 <= k < |s| ==> copier(s[k]) !in s
    requires forall a, b :: 0 <= a < b < |s| ==> copier(s[a]) != copier(s[b])
    ensures k < |s| && from.current == Some(s[k])
    ensures copyLast.Some? ==> copyLast.value in links
    ensures var a := AppendLink2(links, prevs, copyLast, copier(s[k]));
      && from.next.Some? && from.next.value in a.0
      && Copying2(a.0, a.1, last, a.2, copier, s, k + 1, Forward(a.0, last, from).0)
  {
    CopyStep(links, last, copyLast, copier, s, k, from);
    var done := Copies(copier, s[..k]);
    assert forall m :: 0 <= m < |done| ==> done[m] == copier(s[m]) && done[m] != copier(s[k]);
    AppendHolds2(links, prevs, copyLast, done, copier(s[k]));
    CopiesGrow(copier, s, k);
    if k > 0 {
      Around(links, done, |done| - 1);
      assert links[copyLast.value] == copier(s[0]);
    }
    AppendElsewhere2(links, prevs, last, s, copyLast, copier(s[k]));
  }

  /** `internal_deep_copy` into an empty list: one cycle over the source,
      appending the copier's new link for each element.  The copier is an
      outside call; the model takes it as a function whose links are new
      (off the source) and distinct. */
  method InternalDeepCopy2(links: Links, prevs: Prevs, last: Option<Node>, copier: Node -> Node, ghost s: seq<Node>)
    returns (links': Links, prevs': Prevs, copyLast: Option<Node>)
    requires Holds2(links, prevs, last, s)
    requires forall k :: 0 <= k < |s| ==> copier(s[k]) !in s
    requires forall a, b :: 0 <= a < b < |s| ==> copier(s[a]) != copier(s[b])
    ensures Holds2(links', prevs', copyLast, Copies(copier, s))
    ensures Holds2(links', prevs', last, s)
  {
    StartAt(links, last, s);
    var from := MarkCyclePt(Start(links, last));
    links', prevs', copyLast := links, prevs, None;
    ghost var k := 0;
    while !CycledList(last, from)
      invariant Copying2(links', prevs', last, copyLast, copier, s, k, from)
      decreases |s| - k
    {
      CopyStep2(links', prevs', last, copyLast, copier, s, k, from);
      var appended := AppendLink2(links', prevs', copyLast, copier(from.current.value));
      links', prevs', copyLast := appended.0, appended.1, appended.2;
      from := Forward(links', last, from).0;
      k := k + 1;
    }
    assert s[..k] == s;
  }

  /** The second loop of `sort` on a doubly linked list: the list, emptied
      by the first, is rebuilt by adding each pointer of the array to its end. */
  method Rebuild2(links: Links, prevs: Prevs, sorted: seq<Node>) returns (links': Links, prevs': Prevs, last': Option<Node>)
    requires Distinct(sorted)
    ensures Holds2(links', prevs', last', sorted)
  {
    links', prevs', last' := links, prevs, None;
    var i := 0;
    while i < |sorted|
      invariant i <= |sorted| && Holds2(links', prevs', last', sorted[..i])
    {
      NotBefore(sorted, i);
      AppendHolds2(links', prevs', last', sorted[..i], sorted[i]);
      PrefixStep(sorted, i);
      var appended := AppendLink2(links', prevs', last', sorted[i]);
      links', prevs', last' := appended.0, appended.1, appended.2;
      i := i + 1;
    }
    assert sorted[..i] == sorted;
  }

  /** `sort`: the list ends up holding its own links, ordered by the key,
      in both directions. */
  method Sort2(links: Links, prevs: Prevs, last: Option<Node>, key: Node -> int, ghost s: seq<Node>)
    returns (links': Links, prevs': Prevs, last': Option<Node>)
    requires Holds2(links, prevs, last, s)
    ensures Holds2(links', prevs', last', SortByKey(key, s))
    ensures multiset(SortByKey(key, s)) == multiset(s) && SortedBy(key, SortByKey(key, s))
  {
    var count := Length(links, last, s);
    var base := ExtractAll(links, last, s);
    var sorted := SortByKey(key, base);
    SortPermutes(key, base);
    PermutationDistinct(base, sorted);
    assert sorted[..count] == sorted;
    links', prevs', last' := Rebuild2(links, prevs, sorted[..count]);
  }

  /** Forgetting the pointers of a link that is off a list keeps the list. */
  lemma Forgotten(links: Links, prevs: Prevs, last: Option<Node>, s: seq<Node>, e: Node)
    requires Holds2(links, prevs, last, s) && e !in s
    ensures Holds2(links - {e}, prevs - {e}, last, s)
  {
    forall k | 0 <= k < |s|
      ensures s[k] != e
    {
      assert s[k] in s;
    }
    if |s| > 0 {
      ChainForgotten(links, s, e);
      BackForgotten(prevs, s, e);
    }
  }

  lemma ChainForgotten(links: Links, s: seq<Node>, e: Node)
    requires Chained(links, s) && forall k :: 0 <= k < |s| ==> s[k] != e
    ensures Chained(links - {e}, s)
  {
    var l := links - {e};
    forall k | 0 <= k < |s|
      ensures s[k] in l && l[s[k]] == s[Succ(k, |s|)]
    {
      assert links[s[k]] == s[Succ(k, |s|)];
    }
  }

  lemma BackForgotten(prevs: Prevs, s: seq<Node>, e: Node)
    requires Backed(prevs, s) && forall k :: 0 <= k < |s| ==> s[k] != e
    ensures Backed(prevs - {e}, s)
  {
    var p := prevs - {e};
    forall k | 0 <= k < |s|
      ensures s[k] in p && p[s[k]] == s[Pred(k, |s|)]
    {
      assert prevs[s[k]] == s[Pred(k, |s|)];
    }
  }

  /** `internal_de_dump`: the list's `last` field holds the count of
      elements that were dumped; the list is emptied and that many elements
      are read, each has its stale `next` and `prev` pointers cleared and is
      added to the end.  The element reader is an outside call; the model
      takes the elements it returns, in order, as `stream`, whose first
      `count` are distinct new links.  A count of zero or less reads nothing. */
  method InternalDeDump(links: Links, prevs: Prevs, count: int, stream: seq<Node>)
    returns (links': Links, prevs': Prevs, last': Option<Node>)
    requires count <= |stream|
    requires forall a, b :: 0 <= a < b < count ==> stream[a] != stream[b]
    ensures Holds2(links', prevs', last', stream[..if count > 0 then count else 0])
    ensures count <= 0 ==> last' == None
  {
    links', prevs', last' := links, prevs, None;
    var remaining := count;
    var k := 0;
    while remaining > 0
      invariant k <= |stream| && remaining == count - k
      invariant count <= 0 ==> k == 0
      invariant count > 0 ==> k <= count
      invariant Holds2(links', prevs', last', stream[..k])
    {
      var e := stream[k];
      forall c | 0 <= c < k
        ensures stream[..k][c] != e
      {
        assert stream[..k][c] == stream[c];
      }
      Forgotten(links', prevs', last', stream[..k], e);
      links', prevs' := links' - {e}, prevs' - {e};
      AppendHolds2(links', prevs', last', stream[..k], e);
      PrefixStep(stream, k);
      var appended := AppendLink2(links', prevs', last', e);
      links', prevs', last' := appended.0, appended.1, appended.2;
      k := k + 1;
      remaining := remaining - 1;
    }
    assert k == if count > 0 then count else 0;
  }

  /** `assign_to_sublist` on doubly linked lists: the destination must be
      empty; it then takes the inclusive range from `start`'s element to
      `end`'s, cut out of the source, with `end`'s element as its last. */
  method AssignToSublist2(links: Links, prevs: Prevs, destLast: Option<Node>, sourceLast: Option<Node>,
                          start: Iter, end: Iter, ghost s: seq<Node>, ghost i: nat, ghost j: nat)
    returns (r: Result<Extraction, ListError>, prevs': Prevs)
    requires Holds2(links, prevs, sourceLast, s) && At(start, s, i) && j < |s|
    requires end.current == Some(s[j]) ==> At(end, s, j)
    requires end.current.Some? && end.current.value in s ==> end.current == Some(s[j])
    ensures destLast.Some? <==> r == Err(ListNotEmpty)
    ensures destLast.None? ==> (r.Err? <==> end.current != Some(s[j]))
    ensures r.Ok? ==> r.value.sublistLast == s[j] && Holds2(r.value.links, prevs', Some(r.value.sublistLast), Span(s, i, j))
    ensures r.Ok? && |Rest(s, i, j)| > 0 ==> Ring(r.value.links, Rest(s, i, j)) && Backed(prevs', Rest(s, i, j))
    ensures r.Ok? && |Rest(s, i, j)| == 0 ==> r.value.sourceLast == None
  {
    if destLast.Some? {
      return Err(ListNotEmpty), prevs;
    }
    r, prevs' := ExtractSublist2(links, prevs, sourceLast, start, end, s, i, j);
  }
}
