/** The pointer structure shared by the embedded circular lists.  A link is
    identified by its address, a `Node`; the `next` fields of all links form
    one map, `Links`, where a missing key stands for a null pointer.  A list
    is its `last` pointer: empty when null, otherwise the links reachable
    from `last` form a ring whose first element is `last`'s successor.  The
    abstract content of a list is the sequence of its links, first to last,
    tied to the pointers by `Holds`. */
module ERing {
  import opened Wrappers
  import opened Circular

  type Node = nat
  type Links = map<Node, Node>

  /** Errors the list code raises with an ABORT action. */
  datatype ListError = DontExchangeDeleted | BadSublist | ListNotEmpty

  /** Where `v` stands in `s`, when it is there. */
  ghost function IndexOf(s: seq<Node>, v: Node): (k: nat)
  {
    if v in s then var k :| 0 <= k < |s| && s[k] == v; k else 0
  }

  /** No link occurs twice: each stands at its own position.  Stated through
      `IndexOf` so that two equal links yield equal positions by congruence,
      one quantifier instance per link. */
  ghost predicate Distinct(s: seq<Node>) {
    forall a :: 0 <= a < |s| ==> IndexOf(s, s[a]) == a
  }

  /** The pairwise form of `Distinct`. */
  lemma Unrepeated(s: seq<Node>)
    requires forall a, b :: 0 <= a < b < |s| ==> s[a] != s[b]
    ensures Distinct(s)
  {
    forall a | 0 <= a < |s|
      ensures IndexOf(s, s[a]) == a
    {
      var k := IndexOf(s, s[a]);
      assert s[k] == s[a];
    }
  }

  /** Each link of `s` has the one after it as its `next`, the last one the
      first. */
  ghost predicate Chained(links: Links, s: seq<Node>) {
    && |s| > 0
    && (forall k {:trigger s[k] in links} :: 0 <= k < |s| ==> s[k] in links)
    && (forall k {:trigger links[s[k]]} :: 0 <= k < |s| ==> links[s[k]] == s[Succ(k, |s|)])
  }

  /** The links of `s` are distinct and chained in a circle. */
  ghost predicate Ring(links: Links, s: seq<Node>) {
    Chained(links, s) && Distinct(s)
  }

  /** The list whose `last` pointer is `last` holds `s`, first to last. */
  ghost predicate Holds(links: Links, last: Option<Node>, s: seq<Node>) {
    if |s| == 0 then last == None else last == Some(s[|s| - 1]) && Ring(links, s)
  }

  /** Two lists share no link. */
  ghost predicate Disjoint(s: seq<Node>, t: seq<Node>) {
    forall a, b :: 0 <= a < |s| && 0 <= b < |t| ==> s[a] != t[b]
  }

  /** The links on either side of position `i`. */
  lemma Around(links: Links, s: seq<Node>, i: nat)
    requires Chained(links, s) && i < |s|
    ensures s[Pred(i, |s|)] in links && links[s[Pred(i, |s|)]] == s[i]
    ensures s[i] in links && links[s[i]] == s[Succ(i, |s|)]
  {
    var p := Pred(i, |s|);
    assert links[s[p]] == s[Succ(p, |s|)];
    assert Succ(p, |s|) == i;
  }

  /** A link's only predecessor in a ring is the one at the previous position. */
  lemma RingPred(links: Links, s: seq<Node>, k: nat, m: nat)
    requires Ring(links, s) && k < |s| && m < |s|
    ensures links[s[k]] == s[m] <==> k == Pred(m, |s|)
  {
    if links[s[k]] == s[m] {
      assert s[Succ(k, |s|)] == s[m];
    }
  }

  /** Reads a list from the position after `i`: the element `k` places on
      from position `i`. */
  function Rotation(s: seq<Node>, i: nat): (r: seq<Node>)
    requires i < |s|
    ensures |r| == |s|
  {
    seq(|s|, k requires 0 <= k < |s| => s[Fwd(i, k, |s|)])
  }

  lemma {:induction false} RotationRing(links: Links, s: seq<Node>, i: nat)
    requires Ring(links, s) && i < |s|
    ensures Ring(links, Rotation(s, i))
  {
    var n := |s|;
    var r := Rotation(s, i);
    forall a, b | 0 <= a < b < n
      ensures r[a] != r[b]
    {
      var fa, fb := Fwd(i, a, n), Fwd(i, b, n);
      assert fa != fb;
      assert s[fa] != s[fb];
    }
    Unrepeated(r);
    forall k | 0 <= k < n
      ensures r[k] in links && links[r[k]] == r[Succ(k, n)]
    {
      assert links[s[Fwd(i, k, n)]] == s[Succ(Fwd(i, k, n), n)];
      assert Succ(Fwd(i, k, n), n) == Fwd(i, Succ(k, n), n);
    }
  }

  /** Swaps `x` and `y`, fixing every other link. */
  function Swap(x: Node, y: Node, p: Node): (q: Node)
    ensures p == x ==> q == y
    ensures p == y ==> q == x
    ensures p != x && p != y ==> q == p
  {
    if p == x then y else if p == y then x else p
  }

  function SwapOpt(x: Node, y: Node, p: Option<Node>): (q: Option<Node>)
    ensures q.Some? <==> p.Some?
    ensures p.Some? ==> q.value == Swap(x, y, p.value)
  {
    match p
    case None => None
    case Some(v) => Some(Swap(x, y, v))
  }

  /** The list `s` with `x` and `y` in each other's places. */
  function SwapSeq(x: Node, y: Node, s: seq<Node>): (r: seq<Node>)
    ensures |r| == |s|
  {
    seq(|s|, k requires 0 <= k < |s| => Swap(x, y, s[k]))
  }

  /** If the links are re-pointed so that each swapped link's `next` is the
      swap of its original's `next`, the ring `s` comes out with `x` and `y`
      in each other's places. */
  lemma {:induction false} SwappedRing(links: Links, links': Links, s: seq<Node>, x: Node, y: Node)
    requires Ring(links, s)
    requires forall k :: 0 <= k < |s| ==> Swap(x, y, s[k]) in links' && links'[Swap(x, y, s[k])] == Swap(x, y, links[s[k]])
    ensures Ring(links', SwapSeq(x, y, s))
  {
    var n := |s|;
    var r := SwapSeq(x, y, s);
    forall a, b | 0 <= a < b < n
      ensures r[a] != r[b]
    {
      assert s[a] != s[b];
      assert Swap(x, y, r[a]) == s[a];
    }
    Unrepeated(r);
    forall k | 0 <= k < n
      ensures r[k] in links' && links'[r[k]] == r[Succ(k, n)]
    {
      assert links[s[k]] == s[Succ(k, n)];
    }
  }

  /** A list whose ring came out swapped keeps its `last` in swapped form. */
  lemma SwapHolds(links: Links, last: Option<Node>, s: seq<Node>, x: Node, y: Node)
    requires Ring(links, SwapSeq(x, y, s)) && |s| > 0 && last == Some(s[|s| - 1])
    ensures Holds(links, SwapOpt(x, y, last), SwapSeq(x, y, s))
  {
    assert SwapSeq(x, y, s)[|s| - 1] == Swap(x, y, s[|s| - 1]);
  }

  /** Cutting a ring after its element `d` and pointing that element back at
      the first closes the front part into a ring of its own. */
  lemma CloseFront(links: Links, r: seq<Node>, d: nat)
    requires Ring(links, r) && d < |r|
    ensures Ring(links[r[d] := r[0]], r[..d + 1])
  {
    var l := links[r[d] := r[0]];
    var f := r[..d + 1];
    forall k | 0 <= k < |f|
      ensures f[k] in l && l[f[k]] == f[Succ(k, |f|)]
    {
      if k < d {
        assert r[k] != r[d];
        assert links[r[k]] == r[Succ(k, |r|)];
      }
    }
    forall a, b | 0 <= a < b < |f|
      ensures f[a] != f[b]
    {
      assert f[a] == r[a] && f[b] == r[b];
    }
    Unrepeated(f);
  }

  /** ... and pointing the ring's last element at the element after `d`
      closes the back part into a ring too. */
  lemma CloseBack(links: Links, r: seq<Node>, d: nat)
    requires Ring(links, r) && d + 1 < |r|
    ensures Ring(links[r[d] := r[0]][r[|r| - 1] := r[d + 1]], r[d + 1..])
  {
    CloseBackLinks(links, r, d);
    DistinctDrop(r, d + 1);
  }

  /** Both cuts together: the front ring survives the second re-pointing,
      whose link lies behind it. */
  lemma CloseBoth(links: Links, r: seq<Node>, d: nat)
    requires Ring(links, r) && d + 1 < |r|
    ensures var l := links[r[d] := r[0]][r[|r| - 1] := r[d + 1]];
      Ring(l, r[..d + 1]) && Ring(l, r[d + 1..])
  {
    CloseFront(links, r, d);
    CloseBack(links, r, d);
    var f := r[..d + 1];
    forall k | 0 <= k <= d
      ensures f[k] != r[|r| - 1]
    {
      assert f[k] == r[k];
    }
    Unlinked(links[r[d] := r[0]], f, r[|r| - 1], r[d + 1]);
  }

  /** Re-pointing a link off the ring leaves the ring as it was. */
  lemma Unlinked(links: Links, s: seq<Node>, x: Node, v: Node)
    requires Ring(links, s)
    requires forall k :: 0 <= k < |s| ==> s[k] != x
    ensures Ring(links[x := v], s)
  {
    var l := links[x := v];
    forall k | 0 <= k < |s|
      ensures s[k] in l && l[s[k]] == s[Succ(k, |s|)]
    {
      assert links[s[k]] == s[Succ(k, |s|)];
    }
  }

  lemma CloseBackLinks(links: Links, r: seq<Node>, d: nat)
    requires Ring(links, r) && d + 1 < |r|
    ensures Chained(links[r[d] := r[0]][r[|r| - 1] := r[d + 1]], r[d + 1..])
  {
    var l := links[r[d] := r[0]][r[|r| - 1] := r[d + 1]];
    var b := r[d + 1..];
    forall k | 0 <= k < |b|
      ensures b[k] in l && l[b[k]] == b[Succ(k, |b|)]
    {
      var p := d + 1 + k;
      assert r[d] != r[p];
      if p < |r| - 1 {
        assert r[p] != r[|r| - 1];
      }
      CloseBackStep(links, r, d, k);
    }
  }

  lemma CloseBackStep(links: Links, r: seq<Node>, d: nat, k: nat)
    requires Chained(links, r) && d + 1 < |r| && k < |r| - d - 1
    requires r[d] != r[d + 1 + k]
    requires d + 1 + k < |r| - 1 ==> r[d + 1 + k] != r[|r| - 1]
    ensures var l := links[r[d] := r[0]][r[|r| - 1] := r[d + 1]];
      var b := r[d + 1..];
      b[k] in l && l[b[k]] == b[Succ(k, |b|)]
  {
    var n := |r|;
    var b := r[d + 1..];
    var p := d + 1 + k;
    assert b[k] == r[p];
    if k < |b| - 1 {
      assert b[k + 1] == r[p + 1];
      assert links[r[p]] == r[Succ(p, n)];
    }
  }

  lemma DistinctDrop(r: seq<Node>, lo: nat)
    requires Distinct(r) && lo <= |r|
    ensures Distinct(r[lo..])
  {
    var b := r[lo..];
    forall a, c | 0 <= a < c < |b|
      ensures b[a] != b[c]
    {
      assert b[a] == r[lo + a] && b[c] == r[lo + c];
    }
    Unrepeated(b);
  }

  /** A prefix one longer is the prefix and the next element. */
  lemma PrefixStep(r: seq<Node>, k: nat)
    requires k < |r|
    ensures r[..k + 1] == r[..k] + [r[k]]
  {
  }

  /** No link of a list without repeats comes before itself. */
  lemma NotBefore(r: seq<Node>, k: nat)
    requires Distinct(r) && k < |r|
    ensures r[k] !in r[..k]
  {
    forall c | 0 <= c < k
      ensures r[..k][c] != r[k]
    {
      assert r[..k][c] == r[c];
    }
  }

  /** A prefix one longer holds one more element. */
  lemma PrefixGrows(r: seq<Node>, k: nat, v: Node)
    requires k < |r|
    ensures v in r[..k + 1] <==> v in r[..k] || v == r[k]
  {
    assert r[..k + 1] == r[..k] + [r[k]];
  }
}
