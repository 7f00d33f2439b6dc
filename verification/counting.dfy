/** The two path-count dynamic programs: the backward pass of
    `dynamic_programming_path_count` and the forward pass at the head of
    `get_candidates`. Both are shown to count the walks from `source` to
    `target` listed in the Paths module. */
module Counting {
  import opened Wrappers
  import opened Fragments
  import opened Graphs
  import opened Paths

  /** The sum of `npath` over `us`, a node missing from the table counting 0. */
  function SumCounts(m: map<Node, nat>, us: seq<Node>): nat {
    if us == [] then 0
    else (if us[0] in m then m[us[0]] else 0) + SumCounts(m, us[1..])
  }

  // ---------------------------------------------------------------------
  // Backward pass

  /** A depth-first postorder from `source`: every successor of a node comes
      before it, and `source` is listed. */
  ghost predicate PostOrder(g: Graph, post: seq<Node>) {
    && Source in post
    && (forall v | v in post :: v in g.nodes)
    && (forall i, s | 0 <= i < |post| && HasEdge(g, post[i], s) :: s in post[..i])
  }

  /** `npath` after visiting `post` in order: 1 at `target`, otherwise the sum
      over the successors, starting from `npath(source) = 1`. */
  function BackwardCounts(g: Graph, post: seq<Node>): (m: map<Node, nat>)
    ensures Source in m
    ensures forall v | v in post :: v in m
  {
    if post == [] then map[Source := 1]
    else
      var m := BackwardCounts(g, post[..|post| - 1]);
      var v := Last(post);
      m[v := if v == Target then 1 else SumCounts(m, Succs(g, v))]
  }

  /** `dynamic_programming_path_count`: the number of walks from `source` to
      `target`. */
  function DynamicProgrammingPathCount(g: Graph, post: seq<Node>): (n: nat)
    requires WellFormed(g) && PostOrder(g, post)
    ensures n == |PathsTo(g, Target)|
  {
    BackwardCountsCorrect(g, post, |post|);
    assert post[..|post|] == post;
    CompletePathCountsAgree(g);
    BackwardCounts(g, post)[Source]
  }

  lemma {:induction false} SumCountsBackward(g: Graph, m: map<Node, nat>, u: Node, ss: seq<Node>)
    requires WellFormed(g) && u in g.nodes
    requires forall s | s in ss :: HasEdge(g, u, s) && s in g.nodes && s in m && m[s] == |PathsFrom(g, s)|
    ensures SumCounts(m, ss) == |PrependPaths(g, u, ss)|
  {
    if ss != [] {
      SumCountsBackward(g, m, u, ss[1..]);
    }
  }

  /** After the backward pass over a prefix of a postorder, every node of
      the prefix holds its number of walks to `target`. */
  lemma {:induction false} BackwardCountsCorrect(g: Graph, post: seq<Node>, n: nat)
    requires WellFormed(g) && PostOrder(g, post) && n <= |post|
    ensures forall v | v in post[..n] :: BackwardCounts(g, post[..n])[v] == |PathsFrom(g, v)|
  {
    if n > 0 {
      var init := post[..n - 1];
      var v := post[n - 1];
      BackwardCountsCorrect(g, post, n - 1);
      var m := BackwardCounts(g, init);
      var m' := BackwardCounts(g, post[..n]);
      BackwardUnfold(g, post, n);
      BackwardStep(g, post, n);
      forall w | w in post[..n]
        ensures m'[w] == |PathsFrom(g, w)|
      {
        if w != v {
          assert w in init;
        }
      }
    }
  }

  /** The backward pass over n nodes is the pass over n - 1 nodes, then
      the n-th. */
  lemma BackwardUnfold(g: Graph, post: seq<Node>, n: nat)
    requires 0 < n <= |post|
    ensures var m := BackwardCounts(g, post[..n - 1]);
      var v := post[n - 1];
      BackwardCounts(g, post[..n]) == m[v := if v == Target then 1 else SumCounts(m, Succs(g, v))]
  {
    assert post[..n][..n - 1] == post[..n - 1];
    assert Last(post[..n]) == post[n - 1];
  }

  /** The count the backward pass gives the n-th node of a postorder is its
      number of walks to `target`. */
  lemma BackwardStep(g: Graph, post: seq<Node>, n: nat)
    requires WellFormed(g) && PostOrder(g, post) && 0 < n <= |post|
    requires forall v | v in post[..n - 1] :: BackwardCounts(g, post[..n - 1])[v] == |PathsFrom(g, v)|
    ensures post[n - 1] in g.nodes
    ensures var m := BackwardCounts(g, post[..n - 1]);
      var v := post[n - 1];
      (if v == Target then 1 else SumCounts(m, Succs(g, v))) == |PathsFrom(g, v)|
  {
    var v := post[n - 1];
    SuccessorsCounted(g, post, n);
    if v != Target {
      SumCountsBackward(g, BackwardCounts(g, post[..n - 1]), v, Succs(g, v));
    }
  }

  /** The successors of the n-th node of a postorder are counted before it. */
  lemma SuccessorsCounted(g: Graph, post: seq<Node>, n: nat)
    requires WellFormed(g) && PostOrder(g, post) && 0 < n <= |post|
    requires forall v | v in post[..n - 1] :: BackwardCounts(g, post[..n - 1])[v] == |PathsFrom(g, v)|
    ensures post[n - 1] in g.nodes
    ensures var m := BackwardCounts(g, post[..n - 1]);
      forall s | s in Succs(g, post[n - 1]) ::
        HasEdge(g, post[n - 1], s) && s in g.nodes && s in m && m[s] == |PathsFrom(g, s)|
  {
    var m := BackwardCounts(g, post[..n - 1]);
    forall s | s in Succs(g, post[n - 1])
      ensures HasEdge(g, post[n - 1], s) && s in g.nodes && s in m && m[s] == |PathsFrom(g, s)|
    {
      EdgeFacts(g, post[n - 1], s);
    }
  }

  // ---------------------------------------------------------------------
  // Forward pass

  /** The order `get_candidates` visits nodes in, reverse postorder from
      `source` without `source` itself: each node once, only nodes reachable
      from `source`, every predecessor that is visited at all visited first,
      and every successor of `source` or of a visited node visited. */
  ghost predicate VisitOrder(g: Graph, order: seq<Node>)
    requires WellFormed(g)
  {
    && Distinct(order)
    && Source !in order
    && (forall v | v in order :: v in g.nodes && Reach(g, Source, v))
    && (forall i, j | 0 <= i <= j < |order| :: !HasEdge(g, order[j], order[i]))
    && (forall u, w | (u == Source || u in order) && HasEdge(g, u, w) :: w in order)
  }

  /** Gives every node of `us` missing from the table the count 0. */
  function MarkUncounted(m: map<Node, nat>, us: seq<Node>): (r: map<Node, nat>)
    ensures r.Keys == m.Keys + set u | u in us
    ensures forall v | v in m :: r[v] == m[v]
    ensures forall v | v in r && v !in m :: r[v] == 0
    decreases |us|
  {
    if us == [] then m
    else MarkUncounted(if us[0] in m then m else m[us[0] := 0], us[1..])
  }

  /** `npath` after the forward pass over `order`: `source` has 1 and each
      visited node the sum over its predecessors. */
  function ForwardCounts(g: Graph, order: seq<Node>): (m: map<Node, nat>)
    ensures Source in m
    ensures forall v | v in order :: v in m
    ensures forall v | v in m && v != Source && v !in order :: exists d | d in order :: HasEdge(g, v, d)
  {
    if order == [] then map[Source := 1]
    else
      var m := ForwardCounts(g, order[..|order| - 1]);
      var d := Last(order);
      var marked := MarkUncounted(m, Preds(g, d));
      marked[d := SumCounts(marked, Preds(g, d))]
  }

  lemma {:induction false} SumCountsForward(g: Graph, m: map<Node, nat>, us: seq<Node>, v: Node)
    requires WellFormed(g)
    requires forall u | u in us :: HasEdge(g, u, v) && u in m && m[u] == |PathsTo(g, u)|
    ensures SumCounts(m, us) == |ExtendPaths(g, us, v)|
  {
    if us != [] {
      SumCountsForward(g, m, us[1..], v);
    }
  }

  /** After the forward pass over a prefix of the visit order, every node
      holding a count holds its number of walks from `source`. */
  lemma {:induction false} ForwardCountsCorrect(g: Graph, order: seq<Node>, n: nat)
    requires WellFormed(g) && VisitOrder(g, order) && n <= |order|
    ensures forall v | v in ForwardCounts(g, order[..n]) ::
      ForwardCounts(g, order[..n])[v] == |PathsTo(g, v)|
  {
    if n > 0 {
      var d := order[n - 1];
      ForwardCountsCorrect(g, order, n - 1);
      var marked := MarkUncounted(ForwardCounts(g, order[..n - 1]), Preds(g, d));
      ForwardUnfold(g, order, n);
      assert d in order;
      forall u | u in Preds(g, d) && u !in ForwardCounts(g, order[..n - 1])
        ensures PathsTo(g, u) == []
      {
        UncountedPredecessorUnreached(g, order, n, u);
      }
      ForwardStep(g, ForwardCounts(g, order[..n - 1]), d);
      var m' := ForwardCounts(g, order[..n]);
      forall w | w in m'
        ensures m'[w] == |PathsTo(g, w)|
      {
        if w != d {
          assert w in marked;
        }
      }
    }
  }

  /** The forward pass over n nodes is the pass over n - 1 nodes, then the
      n-th. */
  lemma ForwardUnfold(g: Graph, order: seq<Node>, n: nat)
    requires 0 < n <= |order|
    ensures var d := order[n - 1];
      var marked := MarkUncounted(ForwardCounts(g, order[..n - 1]), Preds(g, d));
      ForwardCounts(g, order[..n]) == marked[d := SumCounts(marked, Preds(g, d))]
  {
    assert order[..n][..n - 1] == order[..n - 1];
    assert Last(order[..n]) == order[n - 1];
  }

  /** Marking the uncounted predecessors of d keeps every count right when
      those predecessors have no walk, and then their sum is the number of
      walks into d. */
  lemma ForwardStep(g: Graph, m: map<Node, nat>, d: Node)
    requires WellFormed(g) && d != Source
    requires forall v | v in m :: m[v] == |PathsTo(g, v)|
    requires forall u | u in Preds(g, d) && u !in m :: PathsTo(g, u) == []
    ensures var marked := MarkUncounted(m, Preds(g, d));
      && (forall u | u in marked :: marked[u] == |PathsTo(g, u)|)
      && SumCounts(marked, Preds(g, d)) == |PathsTo(g, d)|
  {
    var preds := Preds(g, d);
    var marked := MarkUncounted(m, preds);
    forall u | u in marked
      ensures marked[u] == |PathsTo(g, u)|
    {
      if u !in m {
        assert u in preds;
      }
    }
    SumCountsForward(g, marked, preds, d);
    assert PathsTo(g, d) == ExtendPaths(g, preds, d);
  }

  /** A predecessor of the n-th visited node that is neither `source` nor
      visited before it is never visited, so no walk from `source` reaches it. */
  lemma EarlierOrUnreached(g: Graph, order: seq<Node>, n: nat, u: Node)
    requires WellFormed(g) && VisitOrder(g, order) && 0 < n <= |order|
    requires HasEdge(g, u, order[n - 1])
    requires u != Source && u !in order[..n - 1]
    ensures PathsTo(g, u) == []
  {
    OutsideClosedSetUnreached(g, order, u);
  }

  /** A predecessor with no count yet is never reached from `source`. */
  lemma UncountedPredecessorUnreached(g: Graph, order: seq<Node>, n: nat, u: Node)
    requires WellFormed(g) && VisitOrder(g, order) && 0 < n <= |order|
    requires HasEdge(g, u, order[n - 1])
    requires u !in ForwardCounts(g, order[..n - 1])
    ensures PathsTo(g, u) == []
  {
    EarlierOrUnreached(g, order, n, u);
  }

  /** The forward count at every visited node is its number of walks from
      `source`; in particular the count at `target`, when visited, is the
      number the backward pass returns. */
  lemma ForwardCountsArePathCounts(g: Graph, order: seq<Node>)
    requires WellFormed(g) && VisitOrder(g, order)
    ensures var m := ForwardCounts(g, order);
      && m[Source] == 1
      && forall v | v in order :: m[v] == |PathsTo(g, v)| > 0
  {
    ForwardCountsCorrect(g, order, |order|);
    assert order[..|order|] == order;
    forall v | v in order
      ensures |PathsTo(g, v)| > 0
    {
      ReachableHasPaths(g, v);
    }
  }
}
