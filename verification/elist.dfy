/** Whole-list operations of the singly linked lists (`ELIST`): clearing,
    deep copying, counting, sorting and taking over a sublist.  The list is
    its `last` pointer over the shared `Links`; `Holds` ties it to the
    sequence of its links. */
module EList {
  import opened Wrappers
  import opened Circular
  import opened ERing
  import opened EListIterator

  /** Adds link `n` after the last one, making it the new last: the
      behaviour of `add_to_end` and of `add_after_then_move` from the last
      element. */
  function AppendLink(links: Links, last: Option<Node>, n: Node): (r: (Links, Option<Node>))
    requires last.Some? ==> last.value in links
    ensures r.1 == Some(n)
  {
    match last
    case None => (links[n := n], Some(n))
    case Some(l) => (links[n := links[l]][l := n], Some(n))
  }

  /** Appending a link that is not on the list extends the list by it. */
  lemma AppendHolds(links: Links, last: Option<Node>, s: seq<Node>, n: Node)
    requires Holds(links, last, s) && n !in s
    ensures last.Some? ==> last.value in links
    ensures Holds(AppendLink(links, last, n).0, Some(n), s + [n])
  {
    var t := s + [n];
    var l := AppendLink(links, last, n).0;
    if |s| > 0 {
      forall k | 0 <= k < |t|
        ensures t[k] in l && l[t[k]] == t[Succ(k, |t|)]
      {
        if k < |s| - 1 {
          assert t[k] == s[k] && t[k + 1] == s[k + 1];
          assert links[s[k]] == s[Succ(k, |s|)];
        } else if k == |s| {
          assert links[s[|s| - 1]] == s[Succ(|s| - 1, |s|)];
        }
      }
      forall a, b | 0 <= a < b < |t|
        ensures t[a] != t[b]
      {
        if b < |s| {
          assert t[a] == s[a] && t[b] == s[b];
        }
      }
      Unrepeated(t);
    } else {
      Unrepeated(t);
    }
  }

  /** Re-pointing links that are off a list keeps the list. */
  lemma AppendElsewhere(links: Links, last: Option<Node>, s: seq<Node>, dLast: Option<Node>, n: Node)
    requires Holds(links, last, s) && n !in s && (dLast.Some? ==> dLast.value !in s && dLast.value in links)
    ensures Holds(AppendLink(links, dLast, n).0, last, s)
  {
    if |s| > 0 {
      if dLast.Some? {
        Unlinked(links, s, n, links[dLast.value]);
        Unlinked(links[n := links[dLast.value]], s, dLast.value, n);
      } else {
        Unlinked(links, s, n, n);
      }
    }
  }

  /** `length`: counts the elements in one full cycle of an iterator. */
  method Length(links: Links, last: Option<Node>, ghost s: seq<Node>) returns (count: nat)
    requires Holds(links, last, s)
    ensures count == |s|
  {
    StartAt(links, last, s);
    var it := MarkCyclePt(Start(links, last));
    count := 0;
    while !CycledList(last, it)
      invariant count <= |s|
      invariant |s| > 0 ==> At(it, s, if count == |s| then 0 else count)
      invariant |s| > 0 ==> it.cyclePt == Some(s[0]) && it.startedCycling == (count > 0)
      decreases |s| - count
    {
      ForwardAt(links, last, s, it, count);
      it := Forward(links, last, it).0;
      count := count + 1;
    }
  }

  /** The links of `s` lead from each to the next and from the last to
      nowhere: a null-terminated chain. */
  ghost predicate Chain(links: Links, s: seq<Node>) {
    && |s| > 0 && s[|s| - 1] !in links
    && forall k :: 0 <= k < |s| - 1 ==> s[k] in links && links[s[k]] == s[k + 1]
  }

  /** Breaking the circle after the last link leaves a chain from the first. */
  lemma BrokenCircle(links: Links, last: Node, s: seq<Node>)
    requires Holds(links, Some(last), s)
    ensures links[last] == s[0]
    ensures Chain(links - {last}, s)
  {
    Around(links, s, 0);
    var l := links - {last};
    forall k | 0 <= k < |s| - 1
      ensures s[k] in l && l[s[k]] == s[k + 1]
    {
      Around(links, s, k);
    }
  }

  /** The loop of `internal_clear`: follows the chain from `first`, handing
      each link to the zapper before moving on. */
  method ZapChain(links: Links, first: Node, ghost s: seq<Node>) returns (zapped: seq<Node>)
    requires Chain(links, s) && s[0] == first
    ensures zapped == s
  {
    var ptr: Option<Node> := Some(first);
    zapped := [];
    ghost var k := 0;
    while ptr.Some?
      invariant k <= |s| && zapped == s[..k]
      invariant ptr == if k < |s| then Some(s[k]) else None
      decreases |s| - k
    {
      var next := if ptr.value in links then Some(links[ptr.value]) else None;
      PrefixStep(s, k);
      zapped := zapped + [ptr.value];
      ptr := next;
      k := k + 1;
    }
    assert s[..k] == s;
  }

  /** `internal_clear`: breaks the circle after the last link, empties the
      list and hands each link to the zapper, first to last.  The zapper is
      an outside call; the model returns the links in the order it gets them. */
  method InternalClear(links: Links, last: Option<Node>, ghost s: seq<Node>)
    returns (zapped: seq<Node>, links': Links, last': Option<Node>)
    requires Holds(links, last, s)
    ensures zapped == s && last' == None
    ensures last.Some? ==> last.value !in links' && forall p :: p != last.value ==> (p in links' <==> p in links)
    ensures last.None? ==> links' == links
  {
    zapped, links', last' := [], links, last;
    if last.Some? {
      BrokenCircle(links, last.value, s);
      var ptr := links[last.value];
      links' := links - {last.value};
      last' := None;
      zapped := ZapChain(links', ptr, s);
    }
  }

  /** The copier applied to each link of a list, in order. */
  function Copies(copier: Node -> Node, t: seq<Node>): (r: seq<Node>)
    ensures |r| == |t|
  {
    seq(|t|, k requires 0 <= k < |t| => copier(t[k]))
  }

  lemma CopiesGrow(copier: Node -> Node, s: seq<Node>, k: nat)
    requires k < |s|
    ensures Copies(copier, s[..k + 1]) == Copies(copier, s[..k]) + [copier(s[k])]
  {
    assert Copies(copier, s[..k + 1])[k] == copier(s[k]);
  }

  /** The state of `internal_deep_copy` after copying `k` elements: the
      source is intact, the iterator stands on its `k`-th element and the
      copies so far form a list. */
  ghost predicate Copying(links: Links, last: Option<Node>, copyLast: Option<Node>, copier: Node -> Node, s: seq<Node>, k: nat, from: Iter) {
    && Holds(links, last, s) && k <= |s|
    && (|s| > 0 ==> At(from, s, if k == |s| then 0 else k))
    && (|s| > 0 ==> from.cyclePt == Some(s[0]) && from.startedCycling == (k > 0))
    && Holds(links, copyLast, Copies(copier, s[..k]))
  }

  lemma CopyStep(links: Links, last: Option<Node>, copyLast: Option<Node>, copier: Node -> Node, s: seq<Node>, k: nat, from: Iter)
    requires Copying(links, last, copyLast, copier, s, k, from) && !CycledList(last, from)
    requires forall k :: 0 <= k < |s| ==> copier(s[k]) !in s
    requires forall a, b :: 0 <= a < b < |s| ==> copier(s[a]) != copier(s[b])
    ensures k < |s| && from.current == Some(s[k])
    ensures copyLast.Some? ==> copyLast.value in links
    ensures var a := AppendLink(links, copyLast, copier(s[k]));
      && from.next.Some? && from.next.value in a.0
      && Copying(a.0, last, a.1, copier, s, k + 1, Forward(a.0, last, from).0)
  {
    CopyGrows(links, copyLast, copier, s, k);
    assert copyLast.Some? ==> copier(s[k - 1]) !in s;
    CopyKeepsSource(links, last, copyLast, copier, s, k);
    ForwardAt(AppendLink(links, copyLast, copier(s[k])).0, last, s, from, k);
  }

  lemma CopyGrows(links: Links, copyLast: Option<Node>, copier: Node -> Node, s: seq<Node>, k: nat)
    requires k < |s| && Holds(links, copyLast, Copies(copier, s[..k]))
    requires forall a, b :: 0 <= a < b < |s| ==> copier(s[a]) != copier(s[b])
    ensures copyLast.Some? ==> copyLast.value in links && copyLast.value == copier(s[k - 1])
    ensures var a := AppendLink(links, copyLast, copier(s[k]));
      Holds(a.0, a.1, Copies(copier, s[..k + 1]))
  {
    var done := Copies(copier, s[..k]);
    assert forall m :: 0 <= m < |done| ==> done[m] == copier(s[m]) && done[m] != copier(s[k]);
    AppendHolds(links, copyLast, done, copier(s[k]));
    CopiesGrow(copier, s, k);
  }

  lemma CopyKeepsSource(links: Links, last: Option<Node>, copyLast: Option<Node>, copier: Node -> Node, s: seq<Node>, k: nat)
    requires k < |s| && Holds(links, last, s)
    requires copyLast.Some? ==> copyLast.value in links && copyLast.value !in s
    requires copier(s[k]) !in s
    ensures Holds(AppendLink(links, copyLast, copier(s[k])).0, last, s)
  {
    AppendElsewhere(links, last, s, copyLast, copier(s[k]));
  }

  /** `internal_deep_copy` into an empty list: one cycle over the source,
      appending the copier's new link for each element.  The copier is an
      outside call; the model takes it as a function whose links are new
      (off the source) and distinct. */
  method InternalDeepCopy(links: Links, last: Option<Node>, copier: Node -> Node, ghost s: seq<Node>)
    returns (links': Links, copyLast: Option<Node>)
    requires Holds(links, last, s)
    requires forall k :: 0 <= k < |s| ==> copier(s[k]) !in s
    requires forall a, b :: 0 <= a < b < |s| ==> copier(s[a]) != copier(s[b])
    ensures Holds(links', copyLast, Copies(copier, s))
    ensures Holds(links', last, s)
  {
    StartAt(links, last, s);
    var from := MarkCyclePt(Start(links, last));
    links', copyLast := links, None;
    ghost var k := 0;
    while !CycledList(last, from)
      invariant Copying(links', last, copyLast, copier, s, k, from)
      decreases |s| - k
    {
      CopyStep(links', last, copyLast, copier, s, k, from);
      var appended := AppendLink(links', copyLast, copier(from.current.value));
      links', copyLast := appended.0, appended.1;
      from := Forward(links', last, from).0;
      k := k + 1;
    }
    assert s[..k] == s;
  }

  /** The comparator, modelled as a key: `a` goes before `b` when
      `key(a) <= key(b)`. */
  ghost predicate SortedBy(key: Node -> int, t: seq<Node>) {
    forall a, b :: 0 <= a < b < |t| ==> key(t[a]) <= key(t[b])
  }

  /** Puts `x` before the first element whose key is not below its own. */
  function Insert(key: Node -> int, x: Node, t: seq<Node>): (r: seq<Node>)
    ensures |r| == |t| + 1
    decreases |t|
  {
    if |t| == 0 || key(x) <= key(t[0]) then [x] + t else [t[0]] + Insert(key, x, t[1..])
  }

  /** The order the pointer array is in after `qsort`: the C library leaves
      the order of equal keys open; the model keeps them in list order. */
  function SortByKey(key: Node -> int, s: seq<Node>): (r: seq<Node>)
    ensures |r| == |s|
    decreases |s|
  {
    if |s| == 0 then [] else Insert(key, s[0], SortByKey(key, s[1..]))
  }

  lemma {:induction false} InsertPermutes(key: Node -> int, x: Node, t: seq<Node>)
    ensures multiset(Insert(key, x, t)) == multiset(t) + multiset{x}
    decreases |t|
  {
    if |t| == 0 || key(x) <= key(t[0]) {
    } else {
      InsertPermutes(key, x, t[1..]);
      assert t == [t[0]] + t[1..];
    }
  }

  lemma {:induction false} InsertSorted(key: Node -> int, x: Node, t: seq<Node>)
    requires SortedBy(key, t)
    ensures SortedBy(key, Insert(key, x, t))
    decreases |t|
  {
    if |t| == 0 || key(x) <= key(t[0]) {
    } else {
      var rest := t[1..];
      InsertSorted(key, x, rest);
      InsertPermutes(key, x, rest);
      var r := Insert(key, x, rest);
      forall b | 0 <= b < |r|
        ensures key(t[0]) <= key(r[b])
      {
        assert r[b] in multiset(r);
        assert r[b] == x || r[b] in multiset(rest);
        if r[b] != x {
          var c :| 0 <= c < |rest| && rest[c] == r[b];
          assert t[c + 1] == r[b];
        }
      }
    }
  }

  /** The sorted order is a permutation of the list, ordered by the key. */
  lemma {:induction false} SortPermutes(key: Node -> int, s: seq<Node>)
    ensures multiset(SortByKey(key, s)) == multiset(s)
    ensures SortedBy(key, SortByKey(key, s))
    decreases |s|
  {
    if |s| > 0 {
      SortPermutes(key, s[1..]);
      InsertPermutes(key, s[0], SortByKey(key, s[1..]));
      InsertSorted(key, s[0], SortByKey(key, s[1..]));
      assert s == [s[0]] + s[1..];
    }
  }

  /** A list without repeated links has each link once in its multiset. */
  lemma {:induction false} DistinctOnce(s: seq<Node>, v: Node)
    requires Distinct(s)
    ensures multiset(s)[v] <= 1
    decreases |s|
  {
    if |s| > 0 {
      DistinctDrop(s, 1);
      DistinctOnce(s[1..], v);
      assert s == [s[0]] + s[1..];
      forall c | 0 <= c < |s| - 1
        ensures s[1..][c] != s[0]
      {
        assert s[1..][c] == s[c + 1];
      }
      assert s[0] !in s[1..];
    }
  }

  /** A permutation of a list without repeated links has none either. */
  lemma PermutationDistinct(s: seq<Node>, t: seq<Node>)
    requires Distinct(s) && multiset(s) == multiset(t)
    ensures Distinct(t)
  {
    forall a, b | 0 <= a < b < |t|
      ensures t[a] != t[b]
    {
      DistinctOnce(s, t[b]);
      assert t == t[..b] + t[b..];
      assert t[b..][0] == t[b];
      assert multiset(t)[t[b]] == multiset(t[..b])[t[b]] + multiset(t[b..])[t[b]];
      assert t[b] !in t[..b];
      assert t[..b][a] == t[a];
    }
    Unrepeated(t);
  }

  /** The first loop of `sort`: one cycle of the iterator, taking each
      element off the list into the pointer array in list order. */
  method ExtractAll(links: Links, last: Option<Node>, ghost s: seq<Node>) returns (base: seq<Node>)
    requires Holds(links, last, s)
    ensures base == s
  {
    StartAt(links, last, s);
    var it := MarkCyclePt(Start(links, last));
    base := [];
    while !CycledList(last, it)
      invariant |base| <= |s| && base == s[..|base|]
      invariant |s| > 0 ==> At(it, s, if |base| == |s| then 0 else |base|)
      invariant |s| > 0 ==> it.cyclePt == Some(s[0]) && it.startedCycling == (|base| > 0)
      decreases |s| - |base|
    {
      ForwardAt(links, last, s, it, |base|);
      PrefixStep(s, |base|);
      base := base + [it.current.value];
      it := Forward(links, last, it).0;
    }
    assert s[..|s|] == s;
  }

  /** The second loop of `sort`: the list, emptied by the first, is rebuilt
      by adding each pointer of the array to its end. */
  method Rebuild(links: Links, sorted: seq<Node>) returns (links': Links, last': Option<Node>)
    requires Distinct(sorted)
    ensures Holds(links', last', sorted)
  {
    links', last' := links, None;
    var i := 0;
    while i < |sorted|
      invariant i <= |sorted| && Holds(links', last', sorted[..i])
    {
      NotBefore(sorted, i);
      AppendHolds(links', last', sorted[..i], sorted[i]);
      PrefixStep(sorted, i);
      var appended := AppendLink(links', last', sorted[i]);
      links', last' := appended.0, appended.1;
      i := i + 1;
    }
    assert sorted[..i] == sorted;
  }

  /** `sort`: the list ends up holding its own links, ordered by the key. */
  method Sort(links: Links, last: Option<Node>, key: Node -> int, ghost s: seq<Node>)
    returns (links': Links, last': Option<Node>)
    requires Holds(links, last, s)
    ensures Holds(links', last', SortByKey(key, s))
    ensures multiset(SortByKey(key, s)) == multiset(s) && SortedBy(key, SortByKey(key, s))
  {
    var count := Length(links, last, s);
    var base := ExtractAll(links, last, s);
    var sorted := SortByKey(key, base);
    SortPermutes(key, base);
    PermutationDistinct(base, sorted);
    assert sorted[..count] == sorted;
    links', last' := Rebuild(links, sorted[..count]);
  }

  /** `assign_to_sublist`: the destination must be empty; it then takes the
      inclusive range from `start`'s element to `end`'s, cut out of the
      source by `extract_sublist`, with `end`'s element as its last. */
  method AssignToSublist(links: Links, destLast: Option<Node>, sourceLast: Option<Node>, start: Iter, end: Iter,
                         ghost s: seq<Node>, ghost i: nat, ghost j: nat)
    returns (r: Result<Extraction, ListError>)
    requires Holds(links, sourceLast, s) && At(start, s, i) && j < |s|
    requires end.current == Some(s[j]) ==> At(end, s, j)
    requires end.current.Some? && end.current.value in s ==> end.current == Some(s[j])
    ensures destLast.Some? <==> r == Err(ListNotEmpty)
    ensures destLast.None? ==> (r.Err? <==> end.current != Some(s[j]))
    ensures r.Ok? ==> r.value.sublistLast == s[j] && Holds(r.value.links, Some(r.value.sublistLast), Span(s, i, j))
    ensures r.Ok? && |Rest(s, i, j)| > 0 ==> Ring(r.value.links, Rest(s, i, j))
    ensures r.Ok? && |Rest(s, i, j)| == 0 ==> r.value.sourceLast == None
  {
    if destLast.Some? {
      return Err(ListNotEmpty);
    }
    r := ExtractSublist(links, sourceLast, start, end, s, i, j);
  }
}
