/** The superread graph as a value: nodes in insertion order, edges keyed by
    their endpoints and carrying the `overlap` attribute, plus the
    well-formedness every builder establishes and reachability. */
module Graphs {
  import opened Wrappers
  import opened Fragments

  /** `nCv` is the number of covarying sites, which is where `target` sits;
      sentinel edges carry no overlap attribute, checker edges carry one. */
  datatype Graph = Graph(nCv: nat, nodes: seq<Node>, edges: map<(Node, Node), Option<nat>>)

  /** `cv_start` of a node: 0 for `source`, `nCv` for `target`. */
  function Start(nCv: nat, n: Node): nat {
    match n
    case Source => 0
    case Target => nCv
    case Fragment(sr) => sr.cvStart
  }

  /** `cv_end` of a node: 0 for `source`, `nCv` for `target`. */
  function End(nCv: nat, n: Node): nat {
    match n
    case Source => 0
    case Target => nCv
    case Fragment(sr) => sr.cvEnd
  }

  /** The symbols of a node; the enumerator gives `target` the empty string
      and never reads those of `source`. */
  function Vacs(n: Node): string {
    if n.Fragment? then n.read.vacs else []
  }

  /** Strictly increases along every edge of a well-formed graph. */
  function Rank(nCv: nat, n: Node): nat {
    Start(nCv, n) + End(nCv, n)
  }

  predicate HasEdge(g: Graph, u: Node, v: Node) {
    (u, v) in g.edges
  }

  /** A node whose interval lies in [0, nCv] and holds one symbol per site. */
  predicate NodeOk(nCv: nat, n: Node) {
    && Start(nCv, n) <= End(nCv, n) <= nCv
    && |Vacs(n)| == End(nCv, n) - Start(nCv, n)
    && (n.Fragment? ==> WellFormedRead(n.read))
  }

  /** What an edge u -> v guarantees: v's interval starts inside or right
      after u's and ends no earlier, the pair is strictly ordered, and the
      sites they share carry the same symbols. */
  predicate Chained(nCv: nat, u: Node, v: Node) {
    && NodeOk(nCv, u) && NodeOk(nCv, v)
    && Start(nCv, u) <= Start(nCv, v) <= End(nCv, u) <= End(nCv, v)
    && Rank(nCv, u) < Rank(nCv, v)
    && Vacs(u)[Start(nCv, v) - Start(nCv, u)..] == Vacs(v)[..End(nCv, u) - Start(nCv, v)]
  }

  predicate WellFormed(g: Graph) {
    && Distinct(g.nodes)
    && Source in g.nodes && Target in g.nodes
    && (forall n | n in g.nodes :: NodeOk(g.nCv, n))
    && (forall e | e in g.edges :: e.0 in g.nodes && e.1 in g.nodes && Chained(g.nCv, e.0, e.1))
  }

  /** Keeping the nodes and a subset of the edges keeps a graph well formed. */
  lemma SubgraphWellFormed(g: Graph, h: Graph)
    requires WellFormed(g)
    requires h.nCv == g.nCv && h.nodes == g.nodes && h.edges.Keys <= g.edges.Keys
    ensures WellFormed(h)
  {
    forall n | n in h.nodes
      ensures NodeOk(h.nCv, n)
    {
      assert NodeOk(g.nCv, n);
    }
    forall e | e in h.edges
      ensures e.0 in h.nodes && e.1 in h.nodes && Chained(h.nCv, e.0, e.1)
    {
      assert e in g.edges;
    }
  }

  /** The nodes of `ns` with an edge into `v`, in the order of `ns`. */
  function NodesInto(g: Graph, ns: seq<Node>, v: Node): (r: seq<Node>)
    ensures forall u :: u in r <==> u in ns && HasEdge(g, u, v)
    ensures Distinct(ns) ==> Distinct(r)
  {
    if ns == [] then []
    else (if HasEdge(g, ns[0], v) then [ns[0]] else []) + NodesInto(g, ns[1..], v)
  }

  /** `NodesInto` keeps the order of `ns`: any two nodes it lists appear in
      that order in `ns`. */
  lemma {:induction false} NodesIntoKeepsOrder(g: Graph, ns: seq<Node>, v: Node)
    ensures forall i, j | 0 <= i < j < |NodesInto(g, ns, v)| ::
      InOrder(ns, NodesInto(g, ns, v)[i], NodesInto(g, ns, v)[j])
    decreases |ns|
  {
    if ns != [] {
      NodesIntoKeepsOrder(g, ns[1..], v);
      FilterStepKeepsOrder(ns, NodesInto(g, ns, v), NodesInto(g, ns[1..], v), HasEdge(g, ns[0], v));
    }
  }

  /** The nodes of `ns` with an edge out of `u`, in the order of `ns`. */
  function NodesOutOf(g: Graph, ns: seq<Node>, u: Node): (r: seq<Node>)
    ensures forall v :: v in r <==> v in ns && HasEdge(g, u, v)
    ensures Distinct(ns) ==> Distinct(r)
  {
    if ns == [] then []
    else (if HasEdge(g, u, ns[0]) then [ns[0]] else []) + NodesOutOf(g, ns[1..], u)
  }

  /** `G.predecessors(v)`, in node insertion order. */
  function Preds(g: Graph, v: Node): seq<Node> {
    NodesInto(g, g.nodes, v)
  }

  /** `G.successors(u)`. The reduction inserts a node's surviving successors
      in the iteration order of a Python set; the model fixes node order
      instead, and only sums and walk counts read this list. */
  function Succs(g: Graph, u: Node): seq<Node> {
    NodesOutOf(g, g.nodes, u)
  }

  /** v can be reached from u along zero or more edges. */
  predicate Reach(g: Graph, u: Node, v: Node)
    requires WellFormed(g)
    decreases Rank(g.nCv, v) - Rank(g.nCv, u)
  {
    u == v ||
    (Rank(g.nCv, u) < Rank(g.nCv, v) &&
     exists w | w in g.nodes && HasEdge(g, u, w) && Rank(g.nCv, w) <= Rank(g.nCv, v) :: Reach(g, w, v))
  }

  /** What an edge of a well-formed graph guarantees about its endpoints. */
  lemma EdgeFacts(g: Graph, u: Node, v: Node)
    requires WellFormed(g) && HasEdge(g, u, v)
    ensures u in g.nodes && v in g.nodes && Chained(g.nCv, u, v)
    ensures Rank(g.nCv, u) < Rank(g.nCv, v) <= 2 * g.nCv
  {
    assert (u, v) in g.edges;
  }

  /** Every node of a well-formed graph ranks at most `target`. */
  lemma RankBounded(g: Graph, n: Node)
    requires WellFormed(g) && n in g.nodes
    ensures Rank(g.nCv, n) <= Rank(g.nCv, Target) == 2 * g.nCv
  {
  }

  /** Reaching goes up in rank, and only a node reaches itself at equal rank. */
  lemma {:induction false} ReachRaisesRank(g: Graph, u: Node, v: Node)
    requires WellFormed(g) && Reach(g, u, v)
    ensures Rank(g.nCv, u) <= Rank(g.nCv, v)
    ensures u != v ==> Rank(g.nCv, u) < Rank(g.nCv, v)
  {
  }

  /** An edge followed by a walk is a walk. */
  lemma EdgeThenReach(g: Graph, u: Node, w: Node, v: Node)
    requires WellFormed(g) && HasEdge(g, u, w) && Reach(g, w, v)
    ensures Reach(g, u, v)
  {
    ReachRaisesRank(g, w, v);
  }

  /** Reachability is transitive. */
  lemma {:induction false} ReachTransitive(g: Graph, u: Node, w: Node, v: Node)
    requires WellFormed(g) && Reach(g, u, w) && Reach(g, w, v)
    ensures Reach(g, u, v)
    decreases Rank(g.nCv, w) - Rank(g.nCv, u)
  {
    if u != w {
      var x :| x in g.nodes && HasEdge(g, u, x) && Rank(g.nCv, x) <= Rank(g.nCv, w) && Reach(g, x, w);
      ReachTransitive(g, x, w, v);
      EdgeThenReach(g, u, x, v);
    }
  }

  /** With no walk from any successor, there is none from u to another node. */
  lemma NoReachPastSuccessors(g: Graph, u: Node, v: Node)
    requires WellFormed(g) && u != v
    requires forall w | w in g.nodes && HasEdge(g, u, w) :: !Reach(g, w, v)
    ensures !Reach(g, u, v)
  {
  }

  /** Dropping edges never creates a walk. */
  lemma {:induction false} ReachMonotone(g: Graph, h: Graph, u: Node, v: Node)
    requires WellFormed(g) && WellFormed(h)
    requires h.nCv == g.nCv && h.nodes == g.nodes && h.edges.Keys <= g.edges.Keys
    requires Reach(h, u, v)
    ensures Reach(g, u, v)
    decreases Rank(h.nCv, v) - Rank(h.nCv, u)
  {
    if u != v {
      var w :| w in h.nodes && HasEdge(h, u, w) && Rank(h.nCv, w) <= Rank(h.nCv, v) && Reach(h, w, v);
      ReachMonotone(g, h, w, v);
      EdgeThenReach(g, u, w, v);
    }
  }
}
