/** The candidate edge list both builders start from, the grouping of that
    list by source node, and the stable descending sort by overlap that picks
    the edges the reduced builder keeps. */
module EdgeLists {
  import opened Wrappers
  import opened Fragments

  /** One entry of the edge list: i -> j with the overlap the checker found. */
  datatype Arc = Arc(i: Node, j: Node, overlap: nat)

  // ---------------------------------------------------------------------
  // get_full_edge_list

  /** The compatible arcs from i, one per node of `js` in order
      (`BlockKeepsOrder`, `BlockOnePerNode`). */
  function Block(i: Node, js: seq<Node>): (r: seq<Arc>)
    ensures forall a | a in r :: a.i == i
    ensures forall a: Arc :: a in r <==>
      a.i == i && a.j in js && CheckCompatibility(i, a.j, DefaultMinimumOverlap) == Compatibility(true, a.overlap)
    ensures |r| <= |js|
  {
    if js == [] then []
    else
      var c := CheckCompatibility(i, js[0], DefaultMinimumOverlap);
      (if c.compatible then [Arc(i, js[0], c.overlap)] else []) + Block(i, js[1..])
  }

  /** The far ends of a list of arcs. */
  function Ends(r: seq<Arc>): (e: seq<Node>)
    ensures |e| == |r| && forall k | 0 <= k < |r| :: e[k] == r[k].j
  {
    seq(|r|, k requires 0 <= k < |r| => r[k].j)
  }

  lemma {:induction false} BlockEndsKeepOrder(i: Node, js: seq<Node>)
    ensures forall p, q | 0 <= p < q < |Ends(Block(i, js))| :: InOrder(js, Ends(Block(i, js))[p], Ends(Block(i, js))[q])
    decreases |js|
  {
    if js != [] {
      BlockEndsKeepOrder(i, js[1..]);
      BlockEndsCons(i, js);
      FilterStepKeepsOrder(js, Ends(Block(i, js)), Ends(Block(i, js[1..])),
                           CheckCompatibility(i, js[0], DefaultMinimumOverlap).compatible);
    }
  }

  lemma EndsConcat(a: seq<Arc>, b: seq<Arc>)
    ensures Ends(a + b) == Ends(a) + Ends(b)
  {
    assert forall k | 0 <= k < |a + b| :: Ends(a + b)[k] == (Ends(a) + Ends(b))[k];
  }

  lemma BlockEndsCons(i: Node, js: seq<Node>)
    requires js != []
    ensures Ends(Block(i, js)) ==
      (if CheckCompatibility(i, js[0], DefaultMinimumOverlap).compatible then [js[0]] else []) + Ends(Block(i, js[1..]))
    ensures forall x | x in Ends(Block(i, js[1..])) :: x in js[1..]
  {
    var rest := Block(i, js[1..]);
    var c := CheckCompatibility(i, js[0], DefaultMinimumOverlap);
    var head := if c.compatible then [Arc(i, js[0], c.overlap)] else [];
    assert Block(i, js) == head + rest;
    EndsConcat(head, rest);
    assert Ends(head) == if c.compatible then [js[0]] else [];
    forall x | x in Ends(rest)
      ensures x in js[1..]
    {
      var k :| 0 <= k < |rest| && Ends(rest)[k] == x;
      assert rest[k] in rest;
    }
  }

  /** A block keeps the order of `js`. */
  lemma {:induction false} BlockKeepsOrder(i: Node, js: seq<Node>)
    ensures forall p, q | 0 <= p < q < |Block(i, js)| :: InOrder(js, Block(i, js)[p].j, Block(i, js)[q].j)
  {
    var r := Block(i, js);
    BlockEndsKeepOrder(i, js);
    forall p, q | 0 <= p < q < |r|
      ensures InOrder(js, r[p].j, r[q].j)
    {
      assert Ends(r)[p] == r[p].j && Ends(r)[q] == r[q].j;
    }
  }

  /** Over distinct nodes a block holds at most one arc per node. */
  lemma {:induction false} BlockOnePerNode(i: Node, js: seq<Node>)
    requires Distinct(js)
    ensures forall p, q | 0 <= p < q < |Block(i, js)| :: Block(i, js)[p].j != Block(i, js)[q].j
  {
    var r := Block(i, js);
    BlockKeepsOrder(i, js);
    forall p, q | 0 <= p < q < |r|
      ensures r[p].j != r[q].j
    {
      InOrderDistinct(js, r[p].j, r[q].j);
    }
  }

  /** `get_full_edge_list`: every ordered pair of nodes, with i in the outer
      loop, so the arcs from one node form one consecutive block. */
  function FullEdgeList(us: seq<Node>, all: seq<Node>): (r: seq<Arc>)
    ensures forall a: Arc :: a in r <==>
      a.i in us && a.j in all && CheckCompatibility(a.i, a.j, DefaultMinimumOverlap) == Compatibility(true, a.overlap)
  {
    if us == [] then [] else Block(us[0], all) + FullEdgeList(us[1..], all)
  }

  /** The arcs of each node of `us` that has any, one block per node. */
  function NonEmptyBlocks(us: seq<Node>, all: seq<Node>): seq<seq<Arc>> {
    if us == [] then []
    else (if Block(us[0], all) != [] then [Block(us[0], all)] else []) + NonEmptyBlocks(us[1..], all)
  }

  // ---------------------------------------------------------------------
  // itertools.groupby on the source node

  /** The maximal runs of consecutive arcs with the same source, in order. */
  function GroupRuns(s: seq<Arc>): (r: seq<seq<Arc>>)
    ensures s != [] ==> r != [] && r[0] != [] && r[0][0] == s[0]
  {
    if s == [] then []
    else
      var rest := GroupRuns(s[1..]);
      if rest != [] && rest[0][0].i == s[0].i then [[s[0]] + rest[0]] + rest[1..]
      else [[s[0]]] + rest
  }

  /** A non-empty run of one source followed by arcs of another source starts
      a group of its own. */
  lemma {:induction false} GroupRunsPrepend(run: seq<Arc>, rest: seq<Arc>)
    requires run != [] && forall a | a in run :: a.i == run[0].i
    requires rest != [] ==> rest[0].i != run[0].i
    ensures GroupRuns(run + rest) == [run] + GroupRuns(rest)
  {
    var tail := run[1..];
    assert run + rest == [run[0]] + (tail + rest);
    var rs := GroupRuns(tail + rest);
    if tail == [] {
      assert tail + rest == rest;
    } else {
      assert tail[0] in run;
      GroupRunsPrepend(tail, rest);
      assert rs[0][0] == tail[0];
      assert [run[0]] + tail == run;
    }
  }

  /** Because the full edge list is built node by node, `groupby` recovers
      exactly the non-empty blocks, one per source node. */
  lemma {:induction false} GroupRunsAreBlocks(us: seq<Node>, all: seq<Node>)
    requires Distinct(us)
    ensures GroupRuns(FullEdgeList(us, all)) == NonEmptyBlocks(us, all)
  {
    if us != [] {
      var b := Block(us[0], all);
      var rest := FullEdgeList(us[1..], all);
      assert FullEdgeList(us, all) == b + rest;
      assert Distinct(us[1..]);
      GroupRunsAreBlocks(us[1..], all);
      RestStartsElsewhere(us, all);
      if b == [] {
        assert b + rest == rest;
      } else {
        GroupRunsPrepend(b, rest);
      }
    }
  }

  /** The arcs after the first block start at a different node. */
  lemma RestStartsElsewhere(us: seq<Node>, all: seq<Node>)
    requires Distinct(us) && us != []
    ensures var rest := FullEdgeList(us[1..], all);
      rest != [] ==> rest[0].i != us[0]
  {
    var rest := FullEdgeList(us[1..], all);
    if rest != [] {
      assert rest[0] in rest;
      var k :| 1 <= k < |us| && us[k] == rest[0].i;
      assert us[0] != us[k];
    }
  }

  // ---------------------------------------------------------------------
  // sorted(edges, reverse=True, key=overlap) and islice

  predicate Descending(s: seq<Arc>) {
    forall i, j | 0 <= i < j < |s| :: s[i].overlap >= s[j].overlap
  }

  /** The arcs of s with the given overlap, in order. */
  function WithOverlap(s: seq<Arc>, v: nat): (r: seq<Arc>)
    ensures forall a | a in r :: a in s && a.overlap == v
  {
    if s == [] then []
    else (if s[0].overlap == v then [s[0]] else []) + WithOverlap(s[1..], v)
  }

  /** Places x after every leading arc whose overlap is at least x's, so x
      follows the arcs of equal overlap already placed. */
  function Insert(t: seq<Arc>, x: Arc): (r: seq<Arc>)
    requires Descending(t)
    ensures Descending(r)
    ensures multiset(r) == multiset(t) + multiset{x}
  {
    if t == [] then [x]
    else if t[0].overlap >= x.overlap then
      var r' := Insert(t[1..], x);
      assert t == [t[0]] + t[1..];
      LeadsAll(t, x, r');
      [t[0]] + r'
    else
      [x] + t
  }

  /** The head of a descending list, when it is at least x, is at least
      everything in the rest with x inserted. */
  lemma LeadsAll(t: seq<Arc>, x: Arc, r: seq<Arc>)
    requires Descending(t) && t != [] && t[0].overlap >= x.overlap
    requires Descending(r) && multiset(r) == multiset(t[1..]) + multiset{x}
    ensures Descending([t[0]] + r)
  {
    forall a | a in r
      ensures t[0].overlap >= a.overlap
    {
      assert a in multiset(r);
      if a != x {
        assert a in t[1..];
      }
    }
  }

  /** The stable descending sort by overlap, as insertion into the sorted
      prefix. */
  function SortByOverlap(s: seq<Arc>): (r: seq<Arc>)
    ensures Descending(r) && multiset(r) == multiset(s)
  {
    if s == [] then []
    else
      var init := s[..|s| - 1];
      assert s == init + [Last(s)];
      Insert(SortByOverlap(init), Last(s))
  }

  /** `islice(sorted_edges, 0, edges_per_node)`. */
  function TopEdges(s: seq<Arc>, k: nat): (r: seq<Arc>)
    ensures |r| == Min(k, |s|)
  {
    var sorted := SortByOverlap(s);
    assert |sorted| == |multiset(sorted)| == |s|;
    sorted[..Min(k, |s|)]
  }

  lemma {:induction false} WithOverlapConcat(s: seq<Arc>, t: seq<Arc>, v: nat)
    ensures WithOverlap(s + t, v) == WithOverlap(s, v) + WithOverlap(t, v)
  {
    if s != [] {
      var h := if s[0].overlap == v then [s[0]] else [];
      assert (s + t)[0] == s[0];
      assert (s + t)[1..] == s[1..] + t;
      WithOverlapConcat(s[1..], t, v);
      assert WithOverlap(s + t, v) == h + WithOverlap(s[1..] + t, v);
      assert WithOverlap(s, v) == h + WithOverlap(s[1..], v);
    } else {
      assert s + t == t;
    }
  }

  lemma {:induction false} WithOverlapNone(s: seq<Arc>, v: nat)
    requires forall a | a in s :: a.overlap < v
    ensures WithOverlap(s, v) == []
  {
    if s != [] {
      assert s[0] in s;
      WithOverlapNone(s[1..], v);
    }
  }

  /** Inserting x keeps every overlap class in order and puts x last in its own. */
  lemma {:induction false} InsertIsStable(t: seq<Arc>, x: Arc, v: nat)
    requires Descending(t)
    ensures WithOverlap(Insert(t, x), v) == WithOverlap(t, v) + (if x.overlap == v then [x] else [])
  {
    if t == [] {
      assert Insert(t, x) == [x];
      WithOverlapSingle(x, v);
    } else if t[0].overlap >= x.overlap {
      InsertIsStable(t[1..], x, v);
      InsertBehind(t, x, v);
    } else {
      assert Insert(t, x) == [x] + t;
      WithOverlapConcat([x], t, v);
      WithOverlapSingle(x, v);
      if x.overlap == v {
        WithOverlapNone(t, v);
      }
    }
  }

  /** The step of `InsertIsStable` where x goes behind the head of t. */
  lemma InsertBehind(t: seq<Arc>, x: Arc, v: nat)
    requires Descending(t) && t != [] && t[0].overlap >= x.overlap
    requires WithOverlap(Insert(t[1..], x), v) == WithOverlap(t[1..], v) + (if x.overlap == v then [x] else [])
    ensures WithOverlap(Insert(t, x), v) == WithOverlap(t, v) + (if x.overlap == v then [x] else [])
  {
    var h := if t[0].overlap == v then [t[0]] else [];
    var e := if x.overlap == v then [x] else [];
    var w := WithOverlap(t[1..], v);
    assert WithOverlap(t, v) == h + w;
    assert Insert(t, x) == [t[0]] + Insert(t[1..], x);
    WithOverlapConcat([t[0]], Insert(t[1..], x), v);
    WithOverlapSingle(t[0], v);
    ConcatAssoc(h, w, e);
  }

  lemma WithOverlapSingle(a: Arc, v: nat)
    ensures WithOverlap([a], v) == if a.overlap == v then [a] else []
  {
    assert [a][1..] == [];
  }

  /** The sort is stable: within every overlap value the arcs keep the order
      they had in the list. */
  lemma {:induction false} SortIsStable(s: seq<Arc>, v: nat)
    ensures WithOverlap(SortByOverlap(s), v) == WithOverlap(s, v)
  {
    if s != [] {
      var init := s[..|s| - 1];
      assert s == init + [Last(s)];
      SortIsStable(init, v);
      InsertIsStable(SortByOverlap(init), Last(s), v);
      WithOverlapConcat(init, [Last(s)], v);
    }
  }

  lemma {:induction false} WithOverlapOfPrefix(s: seq<Arc>, n: nat, v: nat)
    requires n <= |s|
    ensures WithOverlap(s[..n], v) <= WithOverlap(s, v)
  {
    assert s == s[..n] + s[n..];
    WithOverlapConcat(s[..n], s[n..], v);
  }

  /** The kept arcs are the first `min(k, |s|)` of the sorted list. */
  lemma TopIsSortedPrefix(s: seq<Arc>, k: nat)
    ensures |SortByOverlap(s)| == |s|
    ensures TopEdges(s, k) == SortByOverlap(s)[..Min(k, |s|)]
  {
    var sorted := SortByOverlap(s);
    assert |sorted| == |multiset(sorted)| == |s|;
  }

  lemma TopIsDrawnFromList(s: seq<Arc>, k: nat)
    ensures multiset(TopEdges(s, k)) <= multiset(s)
  {
    TopIsSortedPrefix(s, k);
    PrefixMultiset(SortByOverlap(s), Min(k, |s|));
  }

  lemma PrefixMultiset<T>(s: seq<T>, m: nat)
    requires m <= |s|
    ensures multiset(s[..m]) <= multiset(s)
  {
    assert s == s[..m] + s[m..];
  }

  /** An arc of the list with a larger overlap than a kept arc is kept. */
  lemma TopKeepsLarger(s: seq<Arc>, k: nat, a: Arc, b: Arc)
    requires a in TopEdges(s, k) && b in s && b.overlap > a.overlap
    ensures b in TopEdges(s, k)
  {
    var sorted := SortByOverlap(s);
    var m := Min(k, |s|);
    TopIsSortedPrefix(s, k);
    assert b in multiset(sorted);
    var q :| 0 <= q < m && sorted[q] == a;
    var p :| 0 <= p < |sorted| && sorted[p] == b;
    assert p < m;
    assert sorted[..m][p] == b;
  }

  /** Among arcs of one overlap, the kept ones are the first in the list. */
  lemma TopKeepsFirst(s: seq<Arc>, k: nat, v: nat)
    ensures WithOverlap(TopEdges(s, k), v) <= WithOverlap(s, v)
  {
    TopIsSortedPrefix(s, k);
    SortIsStable(s, v);
    WithOverlapOfPrefix(SortByOverlap(s), Min(k, |s|), v);
  }

  /** What the reduced builder keeps from one node's arcs: `min(k, |s|)` of
      them, drawn from s; no arc left behind has a larger overlap than one
      kept; and among arcs of equal overlap the kept ones are the first in
      the list. */
  lemma TopEdgesAreTheLargest(s: seq<Arc>, k: nat)
    ensures var r := TopEdges(s, k);
      && |r| == Min(k, |s|)
      && multiset(r) <= multiset(s)
      && (forall a, b | a in r && b in s && b.overlap > a.overlap :: b in r)
      && (forall v: nat :: WithOverlap(r, v) <= WithOverlap(s, v))
  {
    var r := TopEdges(s, k);
    TopIsDrawnFromList(s, k);
    forall a, b | a in r && b in s && b.overlap > a.overlap
      ensures b in r
    {
      TopKeepsLarger(s, k, a, b);
    }
    forall v: nat
      ensures WithOverlap(r, v) <= WithOverlap(s, v)
    {
      TopKeepsFirst(s, k, v);
    }
  }
}
