/** `transitive_reduction`: drop every edge whose endpoints are also joined
    by a longer walk, keeping the nodes and the attributes of what remains. */
module Reduction {
  import opened Wrappers
  import opened Fragments
  import opened Graphs
  import opened Paths

  /** u -> v is implied: some other out-neighbour w of u reaches v, i.e. a walk
      of two or more edges joins u to v. */
  predicate Redundant(g: Graph, u: Node, v: Node)
    requires WellFormed(g)
  {
    exists w | w in g.nodes && HasEdge(g, u, w) :: w != v && Reach(g, w, v)
  }

  /** The reduced graph, with the attributes of the surviving edges copied
      back from the input. */
  function TransitiveReduction(g: Graph): (r: Graph)
    requires WellFormed(g)
    ensures WellFormed(r)
    ensures r.nCv == g.nCv && r.nodes == g.nodes
    ensures r.edges.Keys <= g.edges.Keys
    ensures forall e | e in r.edges :: r.edges[e] == g.edges[e]
  {
    var r := g.(edges := map e | e in g.edges && !Redundant(g, e.0, e.1) :: g.edges[e]);
    SubgraphWellFormed(g, r);
    r
  }

  /** An edge survives exactly when it is not implied by a longer walk. */
  lemma KeptIffNotRedundant(g: Graph, u: Node, v: Node)
    requires WellFormed(g) && HasEdge(g, u, v)
    ensures HasEdge(TransitiveReduction(g), u, v) <==> !Redundant(g, u, v)
  {
  }

  /** A walk of two or more edges joins u to v. */
  ghost predicate LongerWalk(g: Graph, u: Node, v: Node) {
    exists p | IsPath(g, p) && |p| >= 3 :: p[0] == u && Last(p) == v
  }

  /** An edge of the reduction is exactly an edge of the input whose
      endpoints no longer walk joins. */
  lemma SurvivesIffNoLongerWalk(g: Graph, u: Node, v: Node)
    requires WellFormed(g)
    ensures HasEdge(TransitiveReduction(g), u, v) <==> HasEdge(g, u, v) && !LongerWalk(g, u, v)
  {
    if HasEdge(g, u, v) {
      KeptIffNotRedundant(g, u, v);
      if LongerWalk(g, u, v) {
        LongerWalkIsRedundant(g, u, v);
      }
      if Redundant(g, u, v) {
        RedundantIsLongerWalk(g, u, v);
      }
    }
  }

  lemma LongerWalkIsRedundant(g: Graph, u: Node, v: Node)
    requires WellFormed(g) && LongerWalk(g, u, v)
    ensures Redundant(g, u, v)
  {
    var p :| IsPath(g, p) && |p| >= 3 && p[0] == u && Last(p) == v;
    SecondNodeReaches(g, p);
  }

  /** The second node of a longer walk is a successor of the first, differs
      from the last, and reaches it. */
  lemma SecondNodeReaches(g: Graph, p: seq<Node>)
    requires WellFormed(g) && IsPath(g, p) && |p| >= 3
    ensures p[1] in g.nodes && HasEdge(g, p[0], p[1])
    ensures p[1] != Last(p) && Reach(g, p[1], Last(p))
  {
    WalkTail(g, p);
    WalkGivesReach(g, p[1..]);
    assert Last(p[1..]) == Last(p);
    EdgeFacts(g, p[0], p[1]);
  }

  lemma RedundantIsLongerWalk(g: Graph, u: Node, v: Node)
    requires WellFormed(g) && Redundant(g, u, v)
    ensures LongerWalk(g, u, v)
  {
    var w :| w in g.nodes && HasEdge(g, u, w) && w != v && Reach(g, w, v);
    var q := ReachGivesWalk(g, w, v);
    EdgeThenLongerWalk(g, u, q);
  }

  /** An edge in front of a walk between two different nodes is a longer walk. */
  lemma EdgeThenLongerWalk(g: Graph, u: Node, q: seq<Node>)
    requires IsPath(g, q) && HasEdge(g, u, q[0]) && q[0] != Last(q)
    ensures LongerWalk(g, u, Last(q))
  {
    EdgeThenWalk(g, u, q);
    var p := [u] + q;
    assert |p| >= 3 && p[0] == u;
  }

  /** Every edge of the input is still a walk of the reduction. */
  lemma {:induction false} EdgeSurvivesAsWalk(g: Graph, u: Node, v: Node)
    requires WellFormed(g) && HasEdge(g, u, v)
    ensures Reach(TransitiveReduction(g), u, v)
    decreases Rank(g.nCv, v) - Rank(g.nCv, u), 0
  {
    var r := TransitiveReduction(g);
    KeptIffNotRedundant(g, u, v);
    if !HasEdge(r, u, v) {
      var w :| w in g.nodes && HasEdge(g, u, w) && w != v && Reach(g, w, v);
      ReachRaisesRank(g, w, v);
      EdgeSurvivesAsWalk(g, u, w);
      WalkSurvives(g, w, v);
      ReachTransitive(r, u, w, v);
    } else {
      assert Reach(r, v, v);
      EdgeThenReach(r, u, v, v);
    }
  }

  /** Every walk of the input is still a walk of the reduction. */
  lemma {:induction false} WalkSurvives(g: Graph, u: Node, v: Node)
    requires WellFormed(g) && Reach(g, u, v)
    ensures Reach(TransitiveReduction(g), u, v)
    decreases Rank(g.nCv, v) - Rank(g.nCv, u), 1
  {
    var r := TransitiveReduction(g);
    if u != v {
      var w :| w in g.nodes && HasEdge(g, u, w) && Rank(g.nCv, w) <= Rank(g.nCv, v) && Reach(g, w, v);
      EdgeSurvivesAsWalk(g, u, w);
      WalkSurvives(g, w, v);
      ReachTransitive(r, u, w, v);
    }
  }

  /** The reduction has exactly the reachability relation of its input. */
  lemma ReductionPreservesReach(g: Graph, u: Node, v: Node)
    requires WellFormed(g)
    ensures Reach(TransitiveReduction(g), u, v) <==> Reach(g, u, v)
  {
    var r := TransitiveReduction(g);
    if Reach(g, u, v) {
      WalkSurvives(g, u, v);
    }
    if Reach(r, u, v) {
      ReachMonotone(g, r, u, v);
    }
  }

  /** No edge of the reduction is implied by the others: removing any one of
      them disconnects its endpoints. */
  lemma ReductionIsMinimal(g: Graph, u: Node, v: Node)
    requires WellFormed(g)
    requires HasEdge(TransitiveReduction(g), u, v)
    ensures var r := TransitiveReduction(g);
            !Reach(r.(edges := r.edges - {(u, v)}), u, v)
  {
    var r := TransitiveReduction(g);
    NothingRedundantLeft(g, u, v);
    OnlyWalkIsTheEdge(r, u, v);
  }

  /** In a graph where u -> v is not implied by a longer walk, that edge is
      the only walk from u to v. */
  lemma OnlyWalkIsTheEdge(r: Graph, u: Node, v: Node)
    requires WellFormed(r) && HasEdge(r, u, v) && !Redundant(r, u, v)
    ensures !Reach(r.(edges := r.edges - {(u, v)}), u, v)
  {
    var h := r.(edges := r.edges - {(u, v)});
    SubgraphWellFormed(r, h);
    forall w | w in h.nodes && HasEdge(h, u, w)
      ensures !Reach(h, w, v)
    {
      if Reach(h, w, v) {
        assert w != v && HasEdge(r, u, w);
        ReachMonotone(r, h, w, v);
      }
    }
    EdgeFacts(r, u, v);
    NoReachPastSuccessors(h, u, v);
  }

  /** What survives the reduction is not implied by a longer walk of the
      reduction itself. */
  lemma NothingRedundantLeft(g: Graph, u: Node, v: Node)
    requires WellFormed(g)
    ensures !Redundant(TransitiveReduction(g), u, v) || !HasEdge(TransitiveReduction(g), u, v)
  {
    var r := TransitiveReduction(g);
    if HasEdge(r, u, v) {
      KeptIffNotRedundant(g, u, v);
      forall w | w in r.nodes && HasEdge(r, u, w) && w != v
        ensures !Reach(r, w, v)
      {
        ReductionPreservesReach(g, w, v);
      }
    }
  }

  /** Reducing twice changes nothing. */
  lemma ReductionIdempotent(g: Graph)
    requires WellFormed(g)
    ensures TransitiveReduction(TransitiveReduction(g)) == TransitiveReduction(g)
  {
    var r := TransitiveReduction(g);
    var rr := TransitiveReduction(r);
    forall e | e in r.edges
      ensures e in rr.edges
    {
      SurvivesAgain(g, e.0, e.1);
    }
    assert rr.edges.Keys == r.edges.Keys;
    assert rr.edges == r.edges;
  }

  /** An edge of the reduction survives a second reduction. */
  lemma SurvivesAgain(g: Graph, u: Node, v: Node)
    requires WellFormed(g) && HasEdge(TransitiveReduction(g), u, v)
    ensures HasEdge(TransitiveReduction(TransitiveReduction(g)), u, v)
  {
    NothingRedundantLeft(g, u, v);
    KeptIffNotRedundant(TransitiveReduction(g), u, v);
  }
}
